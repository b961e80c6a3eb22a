/**
 Writing the PNG file: three chunks into a buffer of exactly the right size.
 */
module PngFile {
  import opened Bits
  import Inflate
  import Crc
  import PngFilter
  import Zlib
  import opened Png

  // the colour type of each number of channels
  const CTYPE: seq<int> := [-1, 0, 4, 2, 6]

  ghost function ChunkBytes(kind: seq<byte>, data: seq<byte>): (b: seq<byte>)
    ensures |b| == 8 + |kind| + |data|
  {
    Be32(|data|) + kind + data + CrcBytes(Crc.Crc32(kind + data))
  }

  ghost function HeaderBytes(x: nat, y: nat, n: nat): (b: seq<byte>)
    requires 1 <= n <= 4
    ensures |b| == 13
  {
    Be32(x) + Be32(y) + [8, CTYPE[n], 0, 0, 0]
  }

  /** The whole file around the compressed scanlines. */
  ghost function FileBytes(x: nat, y: nat, n: nat, packed: seq<byte>): (b: seq<byte>)
    requires 1 <= n <= 4
    ensures |b| == 57 + |packed|
  {
    SIGNATURE + ChunkBytes(IHDR, HeaderBytes(x, y, n)) + ChunkBytes(IDAT, packed) + ChunkBytes(IEND, [])
  }

  // ---------- the file is read back ----------

  lemma Be32RoundTrip(v: nat)
    requires v < 0x1_0000_0000
    ensures FromBe32(Be32(v)) == v
    ensures var b := Be32(v); b[0] as int * 0x1000000 + b[1] as int * 0x10000 + b[2] as int * 0x100 + b[3] == v
  {
    var a := v / 0x100;
    var b := a / 0x100;
    var c := b / 0x100;
    assert v / 0x10000 == b && v / 0x1000000 == c && c < 256;
    assert v == 0x100 * a + v % 256 && a == 0x100 * b + a % 256 && b == 0x100 * c + b % 256;
  }

  /** The last chunk is the same in every file. */
  lemma EndChunkIs()
    ensures ChunkBytes(IEND, []) == [0, 0, 0, 0, 73, 69, 78, 68, 174, 66, 96, 130]
  {
    Crc.EndValue();
    hide Crc.Crc32;
    assert IEND + [] == IEND;
  }

  /** A chunk is read back, whatever follows it. */
  lemma ReadChunkOf(kind: seq<byte>, data: seq<byte>, rest: seq<byte>)
    requires |kind| == 4 && |data| < 0x1_0000_0000
    ensures ReadChunk(ChunkBytes(kind, data) + rest) == Chunk(kind, data, rest)
  {
    hide Be32, FromBe32, CrcBytes, Crc.Crc32;
    var file := ChunkBytes(kind, data) + rest;
    Be32RoundTrip(|data|);
    assert file[..4] == Be32(|data|);
    assert file[4..8] == kind;
    assert file[8..8 + |data|] == data;
    assert file[8 + |data|..12 + |data|] == CrcBytes(Crc.Crc32(kind + data));
    assert file[12 + |data|..] == rest;
  }

  lemma ReadHeaderOf(x: nat, y: nat, n: nat)
    requires 1 <= x < 0x80000000 && 1 <= y < 0x80000000 && 1 <= n <= 4
    ensures ReadHeader(HeaderBytes(x, y, n)) == Some(Header(x, y, n))
    ensures HeaderBytes(x, y, n)[8..] ==
            [8, if n == 1 then 0 else if n == 2 then 4 else if n == 3 then 2 else 6, 0, 0, 0]
  {
    hide Be32, FromBe32;
    var h := HeaderBytes(x, y, n);
    Be32RoundTrip(x);
    Be32RoundTrip(y);
    assert h[..4] == Be32(x);
    assert h[4..8] == Be32(y);
    assert h[10..] == [0, 0, 0];
    assert h[8] == 8 && h[9] == CTYPE[n];
  }

  /** Signature and chunk types as RFC 2083 has them, and the last chunk with its checksum. */
  ghost predicate IsFramed(file: seq<byte>) {
    && |file| >= 57
    && file[..16] == [137, 80, 78, 71, 13, 10, 26, 10, 0, 0, 0, 13, 73, 72, 68, 82]
    && file[37..41] == [73, 68, 65, 84]
    && file[|file| - 12..] == [0, 0, 0, 0, 73, 69, 78, 68, 174, 66, 96, 130]
  }

  lemma FileIsFramed(x: nat, y: nat, n: nat, packed: seq<byte>)
    requires 1 <= n <= 4
    ensures IsFramed(FileBytes(x, y, n, packed))
  {
    hide HeaderBytes, CrcBytes, Crc.Crc32;
    EndChunkIs();
    var chunk1, chunk2 := ChunkBytes(IHDR, HeaderBytes(x, y, n)), ChunkBytes(IDAT, packed);
    var file := FileBytes(x, y, n, packed);
    assert chunk1[..8] == [0, 0, 0, 13] + IHDR;
    assert chunk2[4..8] == IDAT;
    hide ChunkBytes;
    assert file[..16] == SIGNATURE + chunk1[..8];
    assert file[37..41] == chunk2[4..8];
    assert file[|file| - 12..] == ChunkBytes(IEND, []);
  }

  /** Unpacking the file gives what its compressed part unpacks to. */
  lemma FileDecodes(x: nat, y: nat, n: nat, packed: seq<byte>)
    requires 1 <= x < 0x80000000 && 1 <= y < 0x80000000 && 1 <= n <= 4 && |packed| < 0x80000000
    ensures PngDecode(FileBytes(x, y, n, packed)) == ReadPixels(Header(x, y, n), packed)
  {
    hide ReadChunk, ReadHeader, ReadPixels, ChunkBytes, HeaderBytes;
    var chunk1, chunk2 := ChunkBytes(IHDR, HeaderBytes(x, y, n)), ChunkBytes(IDAT, packed);
    var chunk3 := ChunkBytes(IEND, []);
    var file := FileBytes(x, y, n, packed);
    assert file == SIGNATURE + (chunk1 + (chunk2 + chunk3));
    assert file[..8] == SIGNATURE;
    assert file[8..] == chunk1 + (chunk2 + chunk3);
    ReadChunkOf(IHDR, HeaderBytes(x, y, n), chunk2 + chunk3);
    ReadHeaderOf(x, y, n);
    ReadChunkOf(IDAT, packed, chunk3);
    assert chunk3 + [] == chunk3;
    ReadChunkOf(IEND, [], []);
  }

  /** Compressed scanlines unpack to the rows. */
  lemma PixelsDecode(px: PngFilter.Pixels, x: nat, n: nat, fs: seq<PngFilter.filter>, packed: seq<byte>)
    requires px.Valid() && 1 <= n && px.rowLen == x * n && |fs| == px.height
    requires Inflate.ZlibDecode(packed) == Some(Scanlines(px, n, fs))
    ensures ReadPixels(Header(x, px.height, n), packed) == Some(Image(x, px.height, n, AllRows(px, px.height)))
  {
    hide Inflate.ZlibDecode, Scanlines, AllRows, PngFilter.Pixels.Valid;
    AllScanlinesDecode(px, n, fs);
  }

  // ---------- writing ----------

  class Output {
    const out: array<byte>  // the file's buffer
    var o: nat              // the write position

    function Contents(): (s: seq<byte>)
      requires o <= out.Length
      reads this, out
      ensures |s| == o
    {
      out[..o]
    }

    constructor (size: nat)
      ensures out.Length == size && o == 0 && fresh(out)
    {
      out := new byte[size];
      o := 0;
    }

    method Move(src: seq<byte>)
      requires o + |src| <= out.Length
      modifies this, out
      ensures o == old(o) + |src| && Contents() == old(Contents()) + src
    {
      forall i | 0 <= i < |src| {
        out[o + i] := src[i];
      }
      o := o + |src|;
    }

    method PutWord(v: nat)
      requires o + 4 <= out.Length
      modifies this, out
      ensures o == old(o) + 4 && Contents() == old(Contents()) + Be32(v)
    {
      out[o] := v / 0x1000000 % 256;
      out[o + 1] := v / 0x10000 % 256;
      out[o + 2] := v / 0x100 % 256;
      out[o + 3] := v % 256;
      o := o + 4;
    }

    /** The CRC of the last len bytes and the type before them. */
    method PutCrc(len: nat)
      requires len + 4 <= o && o + 4 <= out.Length
      modifies this, out
      ensures o == old(o) + 4 && Contents() == old(Contents()) + CrcBytes(Crc.Crc32(old(out[o - len - 4..o])))
    {
      hide Crc.Crc32, CrcBytes;
      var crc := Crc.ComputeCrc32(out[o - len - 4..o]);
      Move(CrcBytes(crc));
    }

    method PutChunk(kind: seq<byte>, data: seq<byte>)
      requires |kind| == 4 && o + 12 + |data| <= out.Length
      modifies this, out
      ensures o == old(o) + 12 + |data| && Contents() == old(Contents()) + ChunkBytes(kind, data)
    {
      hide Be32, Crc.Crc32, CrcBytes;
      ghost var before := Contents();
      PutWord(|data|);
      Move(kind);
      Move(data);
      assert Contents() == before + Be32(|data|) + kind + data;
      assert out[o - |data| - 4..o] == kind + data by {
        assert out[o - |data| - 4..o] == Contents()[o - |data| - 4..];
      }
      PutCrc(|data|);
      assert Contents() == before + ChunkBytes(kind, data);
    }
  }

  method PutHeaderFields(f: Output, x: nat, y: nat, n: nat)
    requires 1 <= n <= 4 && f.o + 17 <= f.out.Length
    modifies f, f.out
    ensures f.o == old(f.o) + 17 && f.Contents() == old(f.Contents()) + (IHDR + HeaderBytes(x, y, n))
  {
    hide Be32;
    ghost var before := f.Contents();
    f.Move(IHDR);
    f.PutWord(x);
    f.PutWord(y);
    f.Move([8, CTYPE[n], 0, 0, 0]);
    assert f.Contents() == before + (IHDR + HeaderBytes(x, y, n));
  }

  /** Puts the header's fields together in the buffer and closes the chunk. */
  method PutHeader(f: Output, x: nat, y: nat, n: nat)
    requires 1 <= n <= 4 && f.o + 25 <= f.out.Length
    modifies f, f.out
    ensures f.o == old(f.o) + 25 && f.Contents() == old(f.Contents()) + ChunkBytes(IHDR, HeaderBytes(x, y, n))
  {
    hide Be32, Crc.Crc32, CrcBytes, HeaderBytes;
    ghost var before, header := f.Contents(), HeaderBytes(x, y, n);
    f.PutWord(13);
    PutHeaderFields(f, x, y, n);
    assert f.out[f.o - 17..f.o] == f.Contents()[f.o - 17..];
    Parts(before + Be32(13), IHDR + header);
    f.PutCrc(13);
    assert f.Contents() == before + ChunkBytes(IHDR, header);
  }

  method PutFile(x: nat, y: nat, n: nat, packed: seq<byte>) returns (file: seq<byte>)
    requires 1 <= n <= 4
    ensures file == FileBytes(x, y, n, packed)
  {
    hide ChunkBytes, HeaderBytes;
    var f := new Output(8 + 12 + 13 + 12 + |packed| + 12);
    f.Move(SIGNATURE);
    PutHeader(f, x, y, n);
    f.PutChunk(IDAT, packed);
    f.PutChunk(IEND, []);
    assert f.o == f.out.Length;  // the write position ends exactly at the end of the buffer
    file := f.Contents();
  }

  /**
   stbi_write_png_to_mem. For every image, stride (zero for rows without gaps, or negative), filter setting,
   compression level and orientation whose file size is an int, the file decodes to the rows in the order written.
   */
  method WritePng(pixels: seq<byte>, origin: nat, strideBytes: int, x: nat, y: nat, n: nat, force: int, level: int,
                  flip: bool)
    returns (file: seq<byte>)
    requires 1 <= x && 1 <= y && 1 <= n <= 4
    requires PngFilter.Pixels(pixels, origin, if strideBytes == 0 then x * n else strideBytes, x * n, y, flip).Valid()
    requires 57 + Zlib.Limit(y * (x * n + 1)) + 4 < 0x80000000
    ensures var px := PngFilter.Pixels(pixels, origin, if strideBytes == 0 then x * n else strideBytes, x * n, y, flip);
            PngDecode(file) == Some(Image(x, y, n, AllRows(px, y)))
    ensures |file| < 0x80000000 && IsFramed(file)
  {
    hide IsFramed, Inflate.ZlibDecode, PngDecode, ReadPixels, Scanlines, AllRows, Zlib.FixedForm, Zlib.Limit, FileBytes;
    var stride := if strideBytes == 0 then x * n else strideBytes;
    var px := PngFilter.Pixels(pixels, origin, stride, x * n, y, flip);
    assert n <= x * n;
    var filt, fs := FilterRows(px, n, force);
    ScanlinesLength(px, n, fs);
    assert |filt| == y * (x * n + 1) >= 1;
    var zlib, fixed := Zlib.Compress(filt, level);
    file := PutFile(x, y, n, zlib);
    SizesFit(x, y, n);
    FileDecodes(x, y, n, zlib);
    FileIsFramed(x, y, n, zlib);
    PixelsDecode(px, x, n, fs, zlib);
  }

  lemma SizesFit(x: nat, y: nat, n: nat)
    requires 1 <= x && 1 <= y && 1 <= n && Zlib.Limit(y * (x * n + 1)) < 0x80000000
    ensures x < 0x80000000 && y < 0x80000000
  {
    var len := x * n + 1;
    NotLess(n, x);
    NotLess(len, y);
    NotLess(y, len);
  }

  lemma {:induction false} NotLess(a: nat, b: nat)
    requires a >= 1
    ensures a * b == b * a >= b
  {
    if a > 1 {
      NotLess(a - 1, b);
      assert a * b == (a - 1) * b + b;
    }
  }
}
