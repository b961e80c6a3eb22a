/**
 PNG scanline filters: the encoder's line filter and the adaptive choice, against the
 reconstruction of RFC 2083, section 6.
 */
module PngFilter {
  import opened Bits

  type schar = x: int | -128 <= x < 128

  /** A filter type byte of RFC 2083, section 6.1. */
  type filter = f: int | 0 <= f < 5

  /** The low eight bits of a number, read as a signed character. */
  function Schar(v: int): schar {
    if v % 256 < 128 then v % 256 else v % 256 - 256
  }

  function Paeth(a: byte, b: byte, c: byte): byte {
    var p: int := a + b - c;
    var pa, pb, pc := Abs(p - a), Abs(p - b), Abs(p - c);
    if pa <= pb && pa <= pc then a else if pb <= pc then b else c
  }

  /** It is the one of left, above and corner that is nearest to a + b - c, the first of them if several are. */
  lemma PaethIs(a: byte, b: byte, c: byte)
    ensures var p, r := a as int + b - c, Paeth(a, b, c);
            var da, db, dc := Abs(p - a), Abs(p - b), Abs(p - c);
            && (r == a <== da <= db && da <= dc)
            && (r == b <== db < da && db <= dc)
            && (r == c <== dc < da && dc < db)
  {
  }

  // ---------- reconstruction (RFC 2083, sections 6.2 to 6.6) ----------

  /** What filter f predicts from the bytes to the left (a), above (b) and above left (c). */
  function Predict(f: nat, a: byte, b: byte, c: byte): byte {
    if f == 1 then a else if f == 2 then b else if f == 3 then (a + b) / 2 else if f == 4 then Paeth(a, b, c) else 0
  }

  /** What RFC 2083 says of each filter: nothing, left, above, and the mean of both rounded down. */
  lemma PredictIs(a: byte, b: byte, c: byte)
    ensures Predict(0, a, b, c) == 0 && Predict(1, a, b, c) == a && Predict(2, a, b, c) == b
    ensures 0 <= a as int + b - 2 * Predict(3, a, b, c) <= 1
    ensures Predict(4, a, b, c) == Paeth(a, b, c)
  {
  }

  /** The byte n to the left of position i, zero left of the line. */
  function Left(line: seq<byte>, n: nat, i: nat): byte
    requires 1 <= n && i < n + |line|
  {
    if i < n then 0 else line[i - n]
  }

  /** The original bytes of a filtered line; prior is the line above, all zero for the first. */
  function Unfilter(f: nat, n: nat, prior: seq<byte>, coded: seq<byte>): (line: seq<byte>)
    requires 1 <= n && |coded| <= |prior|
    ensures |line| == |coded|
  {
    if coded == [] then [] else
    var i := |coded| - 1;
    var line := Unfilter(f, n, prior, coded[..i]);
    line + [(coded[i] as int + Predict(f, Left(line, n, i), prior[i], Left(prior, n, i))) % 256]
  }

  // ---------- the encoder's line ----------

  /** The filtered byte at position i of a line. */
  function CodedAt(f: nat, n: nat, prior: seq<byte>, line: seq<byte>, i: nat): schar
    requires 1 <= n && i < |line| <= |prior|
  {
    Schar(line[i] as int - Predict(f, Left(line, n, i), prior[i], Left(prior, n, i)))
  }

  function Coded(f: nat, n: nat, prior: seq<byte>, line: seq<byte>): (s: seq<schar>)
    requires 1 <= n && |line| <= |prior|
    ensures |s| == |line|
  {
    seq(|line|, i requires 0 <= i < |line| => CodedAt(f, n, prior, line, i))
  }

  /** A buffer of signed characters, copied as bytes. */
  function AsBytes(s: seq<schar>): (b: seq<byte>)
    ensures |b| == |s|
  {
    seq(|s|, i requires 0 <= i < |s| => (s[i] as int) % 256)
  }

  /** Reconstruction undoes every filter, on every line and under every line above. */
  lemma {:induction false} UnfilterOfCoded(f: nat, n: nat, prior: seq<byte>, line: seq<byte>, k: nat)
    requires 1 <= n && |line| <= |prior| && k <= |line|
    ensures Unfilter(f, n, prior, AsBytes(Coded(f, n, prior, line))[..k]) == line[..k]
    decreases k
  {
    hide Predict, Schar;
    if k > 0 {
      var coded := AsBytes(Coded(f, n, prior, line));
      var i := k - 1;
      assert coded[..k][..i] == coded[..i];
      UnfilterOfCoded(f, n, prior, line, i);
      var left, up, corner := Left(line, n, i), prior[i], Left(prior, n, i);
      assert Left(line[..i], n, i) == left;
      Restored(line[i], Predict(f, left, up, corner));
      assert line[..k] == line[..i] + [line[i]];
    }
  }

  /** A byte less a prediction, as a signed character, and the prediction give the byte. */
  lemma Restored(x: byte, p: byte)
    ensures (Schar(x as int - p) as int % 256 + p) % 256 == x
  {
    assert Schar(x as int - p) as int % 256 == (x as int - p) % 256;
  }

  // ---------- rows in memory ----------

  lemma {:induction false} MulBetween(a: int, k: nat, n: nat)
    requires k <= n
    ensures 0 <= a * k <= a * n || a * n <= a * k <= 0
    decreases n
  {
    if k < n {
      MulBetween(a, k, n - 1);
      assert a * n == a * (n - 1) + a;
    } else if n > 0 {
      MulBetween(a, k - 1, n - 1);
      assert a * n == a * (n - 1) + a;
    }
  }

  /**
   An image in memory: rows of width * n bytes, the first at the origin, each stride bytes from the one before. A
   negative stride goes down in memory.
   */
  datatype Pixels = Pixels(bytes: seq<byte>, origin: nat, stride: int, rowLen: nat, height: nat, flip: bool) {
    /** The first and the last row are in memory, and so those between. */
    ghost predicate Valid() {
      height >= 1 && rowLen >= 1 && InMemory(origin) && InMemory(origin + stride * (height - 1))
    }

    predicate InMemory(start: int) {
      0 <= start && start + rowLen <= |bytes|
    }

    /** Where the y-th row written starts; flipping writes the last row first. */
    function Start(y: nat): int
      requires y < height
    {
      origin + stride * (if flip then height - 1 - y else y)
    }

    function Row(y: nat): (row: seq<byte>)
      requires Valid() && y < height
      ensures |row| == rowLen
    {
      StartFits(y);
      bytes[Start(y)..Start(y) + rowLen]
    }

    /** The row written before row y; nothing but zeros before the first. */
    function Prior(y: nat): (row: seq<byte>)
      requires Valid() && y < height
      ensures |row| == rowLen
    {
      if y == 0 then seq(rowLen, i => 0) else Row(y - 1)
    }

    /** Byte i of the y-th row written: rows are stride bytes apart, and the last comes first when flipping. */
    lemma RowIs(y: nat, i: nat)
      requires Valid() && y < height && i < rowLen
      ensures var a := origin + stride * (if flip then height - 1 - y else y) + i;
              0 <= a < |bytes| && Row(y)[i] == bytes[a]
    {
      StartFits(y);
    }

    /** Valid exactly if there is something in every row and all of every row is in memory. */
    lemma ValidIff()
      ensures Valid() <==>
              height >= 1 && rowLen >= 1 &&
              forall y :: 0 <= y < height ==> 0 <= Start(y) && Start(y) + rowLen <= |bytes|
    {
      if Valid() {
        forall y | 0 <= y < height ensures 0 <= Start(y) && Start(y) + rowLen <= |bytes| {
          StartFits(y);
        }
      } else if height >= 1 && rowLen >= 1 {
        assert Start(0) == if flip then origin + stride * (height - 1) else origin;
        assert Start(height - 1) == if flip then origin else origin + stride * (height - 1);
      }
    }

    lemma StartFits(y: nat)
      requires Valid() && y < height
      ensures InMemory(Start(y))
    {
      MulBetween(stride, if flip then height - 1 - y else y, height - 1);
    }

    lemma StartBefore(y: nat)
      requires 1 <= y < height
      ensures Start(y - 1) == Start(y) - (if flip then -stride else stride)
    {
      if flip {
        assert stride * (height - y) == stride * (height - 1 - y) + stride;
      } else {
        assert stride * (y - 1) == stride * y - stride;
      }
    }
  }

  /** The filter as the encoder runs it: variants that do not look above on the first row, where there is nothing. */
  function Kind(y: nat, filterType: nat): nat
    requires filterType < 5
  {
    if y != 0 then filterType else [0, 1, 0, 5, 6][filterType]
  }

  /** A filtered byte of the first pixel of a row. */
  function FirstByte(kind: nat, z: byte, up: byte): schar {
    if kind == 2 then Schar(z as int - up)
    else if kind == 3 then Schar(z as int - up / 2)
    else if kind == 4 then Schar(z as int - Paeth(0, up, 0))
    else Schar(z)
  }

  /** A filtered byte behind the first pixel. */
  function LaterByte(kind: nat, z: byte, left: byte, up: byte, corner: byte): schar {
    if kind == 1 then Schar(z as int - left)
    else if kind == 2 then Schar(z as int - up)
    else if kind == 3 then Schar(z as int - (left as int + up) / 2)
    else if kind == 4 then Schar(z as int - Paeth(left, up, corner))
    else if kind == 5 then Schar(z as int - left / 2)
    else if kind == 6 then Schar(z as int - Paeth(left, 0, 0))
    else Schar(z)
  }

  /** Whether this kind reads the row above. */
  predicate LooksUp(kind: nat) {
    2 <= kind <= 4
  }

  /** The encoder's variants filter as if the row above the first were all zeros. */
  lemma KindsAgree(px: Pixels, y: nat, n: nat, f: nat, i: nat)
    requires px.Valid() && y < px.height && 1 <= n && f < 5 && i < px.rowLen
    ensures var up := if y == 0 then 0 else px.Row(y - 1)[i];
            i < n ==> CodedAt(f, n, px.Prior(y), px.Row(y), i) == FirstByte(Kind(y, f), px.Row(y)[i], up)
    ensures i >= n ==>
              var up := if y == 0 then 0 else px.Row(y - 1)[i];
              var corner := if y == 0 then 0 else px.Row(y - 1)[i - n];
              CodedAt(f, n, px.Prior(y), px.Row(y), i) ==
              LaterByte(Kind(y, f), px.Row(y)[i], px.Row(y)[i - n], up, corner)
  {
    hide Pixels.Row, Schar, Paeth;
    PaethOfNothing();
  }

  lemma PaethOfNothing()
    ensures Paeth(0, 0, 0) == 0
  {
  }

  /** Where the row above is not looked at, what is there does not matter. */
  lemma OnlyWhereLooked(kind: nat, z: byte, left: byte, up: byte, corner: byte)
    requires !LooksUp(kind)
    ensures FirstByte(kind, z, up) == FirstByte(kind, z, 0)
    ensures LaterByte(kind, z, left, up, corner) == LaterByte(kind, z, left, 0, 0)
  {
    hide Schar;
  }

  lemma PlainCopy(y: nat, f: nat, z: byte, left: byte, up: byte, corner: byte)
    requires f < 5 && Kind(y, f) == 0
    ensures FirstByte(0, z, up) == Schar(z) && LaterByte(0, z, left, up, corner) == Schar(z)
  {
  }

  /** Where row y is in memory, and by how much the row above is before it. */
  predicate Located(px: Pixels, y: nat, z: nat, signedStride: int)
    requires y < px.height
  {
    z == px.Start(y) && signedStride == if px.flip then -px.stride else px.stride
  }

  /** One byte of the first pixel, which has nothing to its left. */
  method FirstLineByte(px: Pixels, y: nat, n: nat, f: nat, z: nat, signedStride: int, i: nat) returns (b: schar)
    requires px.Valid() && y < px.height && 1 <= n && f < 5 && i < n && i < px.rowLen && Located(px, y, z, signedStride)
    ensures b == CodedAt(f, n, px.Prior(y), px.Row(y), i)
  {
    hide CodedAt, FirstByte, LaterByte, Schar, Pixels.Prior, Pixels.Start, Predict;
    var kind := Kind(y, f);
    px.StartFits(y);
    if y > 0 {
      px.StartFits(y - 1);
      px.StartBefore(y);
    }
    KindsAgree(px, y, n, f, i);
    var up: byte := if LooksUp(kind) then px.bytes[z + i - signedStride] else 0;
    if !LooksUp(kind) {
      OnlyWhereLooked(kind, px.Row(y)[i], 0, if y == 0 then 0 else px.Row(y - 1)[i], 0);
    }
    b := FirstByte(kind, px.bytes[z + i], up);
  }

  /** One byte behind the first pixel. */
  method LaterLineByte(px: Pixels, y: nat, n: nat, f: nat, z: nat, signedStride: int, i: nat) returns (b: schar)
    requires px.Valid() && y < px.height && 1 <= n <= i < px.rowLen && f < 5 && Located(px, y, z, signedStride)
    ensures b == CodedAt(f, n, px.Prior(y), px.Row(y), i)
  {
    hide CodedAt, FirstByte, LaterByte, Schar, Pixels.Prior, Pixels.Start, Predict;
    var kind := Kind(y, f);
    px.StartFits(y);
    if y > 0 {
      px.StartFits(y - 1);
      px.StartBefore(y);
    }
    KindsAgree(px, y, n, f, i);
    var up: byte := if LooksUp(kind) then px.bytes[z + i - signedStride] else 0;
    var corner: byte := if LooksUp(kind) then px.bytes[z + i - signedStride - n] else 0;
    if !LooksUp(kind) {
      OnlyWhereLooked(kind, px.Row(y)[i], px.Row(y)[i - n], if y == 0 then 0 else px.Row(y - 1)[i],
                      if y == 0 then 0 else px.Row(y - 1)[i - n]);
    }
    b := LaterByte(kind, px.bytes[z + i], px.bytes[z + i - n], up, corner);
  }

  /** Filter type 0 is a copy of the row. */
  lemma CopyIs(px: Pixels, y: nat, n: nat, f: nat, i: nat)
    requires px.Valid() && y < px.height && 1 <= n && f < 5 && Kind(y, f) == 0 && i < px.rowLen
    ensures CodedAt(f, n, px.Prior(y), px.Row(y), i) == Schar(px.Row(y)[i])
  {
    hide CodedAt, FirstByte, LaterByte, Schar, Pixels.Prior, Pixels.Row, Predict;
    KindsAgree(px, y, n, f, i);
    var row := px.Row(y);
    PlainCopy(y, f, row[i], if i < n then 0 else row[i - n], if y == 0 then 0 else px.Row(y - 1)[i],
              if y == 0 || i < n then 0 else px.Row(y - 1)[i - n]);
  }

  /** stbiw__encode_png_line: fills the line buffer with row y under the given filter. */
  method EncodeLine(px: Pixels, y: nat, n: nat, filterType: nat, lineBuffer: array<schar>)
    requires px.Valid() && y < px.height && 1 <= n <= px.rowLen && filterType < 5
    requires lineBuffer.Length == px.rowLen
    modifies lineBuffer
    ensures lineBuffer[..] == Coded(filterType, n, px.Prior(y), px.Row(y))
  {
    hide CodedAt, Schar, Pixels.Prior, Pixels.Start, Pixels.Valid;
    ghost var f, row, prior := filterType, px.Row(y), px.Prior(y);
    px.StartFits(y);
    var z := px.Start(y);
    var signedStride := if px.flip then -px.stride else px.stride;
    if Kind(y, filterType) == 0 {
      forall i | 0 <= i < px.rowLen {
        lineBuffer[i] := Schar(px.bytes[z + i]);
      }
      forall i | 0 <= i < px.rowLen
        ensures lineBuffer[i] == CodedAt(f, n, prior, row, i)
      {
        CopyIs(px, y, n, f, i);
      }
      return;
    }
    for i := 0 to n
      invariant forall k :: 0 <= k < i ==> lineBuffer[k] == CodedAt(f, n, prior, row, k)
    {
      lineBuffer[i] := FirstLineByte(px, y, n, filterType, z, signedStride, i);
    }
    for i := n to px.rowLen
      invariant forall k :: 0 <= k < i ==> lineBuffer[k] == CodedAt(f, n, prior, row, k)
    {
      lineBuffer[i] := LaterLineByte(px, y, n, filterType, z, signedStride, i);
    }
  }
}
