/**
 TGA pictures with run-length packets: the coder of one picture, through the 64-byte output buffer, against the
 packet decoder of the format.
 */
module TgaRle {
  import opened Bits
  import WriteContext

  /** A pixel of 1 to 4 components: grey, grey and alpha, RGB, RGB and alpha. */
  type Pixel = p: seq<byte> | 1 <= |p| <= 4 witness [0]

  /** The bytes of a pixel in the file: blue, green, red, and alpha last. */
  function Stored(p: Pixel): (b: seq<byte>)
    ensures |b| == |p|
  {
    if |p| == 3 then [p[2], p[1], p[0]] else if |p| == 4 then [p[2], p[1], p[0], p[3]] else p
  }

  // ---------- decoding ----------

  /** What a decoder makes of the bytes of a pixel: the first three of three or four are blue, green and red. */
  function Loaded(b: seq<byte>): (p: Pixel)
    requires 1 <= |b| <= 4
    ensures |p| == |b|
  {
    match |b| case 1 => b case 2 => b case 3 => [b[2], b[1], b[0]] case _ => [b[2], b[1], b[0], b[3]]
  }

  lemma LoadedOfStored(p: Pixel)
    ensures Loaded(Stored(p)) == p
  {
  }

  type Read = Option<(seq<Pixel>, seq<byte>)>

  function RawPixels(s: seq<byte>, n: nat, comp: nat): Read
    requires 1 <= comp <= 4
  {
    if n == 0 then Some(([], s))
    else if |s| < comp then None
    else Prefixed([Loaded(s[..comp])], RawPixels(s[comp..], n - 1, comp))
  }

  /**
   Reads the packets of one row of n pixels. A header below 128 is followed by header + 1 pixels, any other by one
   pixel repeated header - 127 times; no packet goes past the row. The result is the row and the rest of the bytes.
   */
  function DecodeRow(s: seq<byte>, n: nat, comp: nat): Read
    requires 1 <= comp <= 4
    decreases n
  {
    if n == 0 then Some(([], s))
    else if s == [] then None
    else if s[0] < 128 then
      var k: nat := s[0] + 1;
      if k > n then None else
      match RawPixels(s[1..], k, comp)
      case None => None
      case Some(raw) => Prefixed(raw.0, DecodeRow(raw.1, n - k, comp))
    else
      var k := s[0] - 127;
      if k > n || |s| < 1 + comp then None
      else Prefixed(Repeat<Pixel>(k, Loaded(s[1..1 + comp])), DecodeRow(s[1 + comp..], n - k, comp))
  }

  // ---------- the form of the output ----------

  predicate IsRow(row: seq<Pixel>, comp: nat) {
    forall i :: 0 <= i < |row| ==> |row[i]| == comp
  }

  /** The scan of a raw packet: pixel k is compared with pixel k - 2, and the pixel before a match is given back. */
  function RawLength(row: seq<Pixel>, k: nat): (n: nat)
    requires 2 <= k <= |row| && k <= 128
    ensures 1 <= n <= |row| && n <= 128
    decreases |row| - k
  {
    if k == |row| || k == 128 then k else if row[k - 2] == row[k] then k - 1 else RawLength(row, k + 1)
  }

  function RunLength(row: seq<Pixel>, k: nat): (n: nat)
    requires 2 <= k <= |row| && k <= 128 && forall i :: 0 <= i < k ==> row[i] == row[0]
    ensures k <= n <= |row| && n <= 128
    ensures forall i :: 0 <= i < n ==> row[i] == row[0]
    decreases |row| - k
  {
    if k == |row| || k == 128 || row[k] != row[0] then k else RunLength(row, k + 1)
  }

  function Raw(px: seq<Pixel>): seq<byte> {
    if px == [] then [] else Stored(px[0]) + Raw(px[1..])
  }

  predicate IsRun(row: seq<Pixel>) {
    |row| >= 2 && row[0] == row[1]
  }

  /** How many pixels the first packet of a row takes. */
  function PacketLength(row: seq<Pixel>): (n: nat)
    requires row != []
    ensures 1 <= n <= |row| && n <= 128
    ensures IsRun(row) ==> forall i :: 0 <= i < n ==> row[i] == row[0]
  {
    if |row| == 1 then 1 else if IsRun(row) then RunLength(row, 2) else RawLength(row, 2)
  }

  /** The first match of the scan of a raw packet, at distance two, is at k. */
  predicate Repeats(row: seq<Pixel>, k: nat) {
    2 <= k < |row| && row[k] == row[k - 2]
  }

  lemma {:induction false} RawLengthIs(row: seq<Pixel>, k: nat, m: nat)
    requires 2 <= k <= |row| && k <= 128 && k <= m <= Min(|row|, 128) && (m < Min(|row|, 128) ==> Repeats(row, m))
    requires forall j :: k <= j < m ==> !Repeats(row, j)
    ensures RawLength(row, k) == if m < Min(|row|, 128) then m - 1 else m
    decreases m - k
  {
    if k < m {
      assert !Repeats(row, k);
      RawLengthIs(row, k + 1, m);
    }
  }

  /**
   A raw packet ends at the end of the row or at 128 pixels, or else one pixel before the first that is that of two
   before it.
   */
  lemma RawPacketIs(row: seq<Pixel>, m: nat)
    requires 2 <= m <= Min(|row|, 128) && row[0] != row[1]
    requires (forall j :: 2 <= j < m ==> !Repeats(row, j)) && (m < Min(|row|, 128) ==> Repeats(row, m))
    ensures PacketLength(row) == if m < Min(|row|, 128) then m - 1 else m
  {
    RawLengthIs(row, 2, m);
  }

  lemma {:induction false} RunLengthIs(row: seq<Pixel>, k: nat, m: nat)
    requires 2 <= k <= m <= Min(|row|, 128) && (m < Min(|row|, 128) ==> row[m] != row[0])
    requires forall i :: 0 <= i < m ==> row[i] == row[0]
    ensures RunLength(row, k) == m
    decreases m - k
  {
    if k < m {
      RunLengthIs(row, k + 1, m);
    }
  }

  /** A run takes all equal pixels at the front, 128 at most. */
  lemma RunPacketIs(row: seq<Pixel>, m: nat)
    requires 2 <= m <= Min(|row|, 128) && (m < Min(|row|, 128) ==> row[m] != row[0])
    requires forall i :: 0 <= i < m ==> row[i] == row[0]
    ensures PacketLength(row) == m
  {
    RunLengthIs(row, 2, m);
  }

  function Packet(row: seq<Pixel>): seq<byte>
    requires row != []
  {
    var n := PacketLength(row);
    if IsRun(row) then [n + 127] + Stored(row[0]) else [n - 1] + Raw(row[..n])
  }

  function RowBytes(row: seq<Pixel>): seq<byte>
    decreases |row|
  {
    if row == [] then [] else Packet(row) + RowBytes(row[PacketLength(row)..])
  }

  // ---------- decoding gives the row back ----------

  lemma {:induction false} RawReads(px: seq<Pixel>, comp: nat, rest: seq<byte>)
    requires 1 <= comp <= 4 && IsRow(px, comp)
    ensures RawPixels(Raw(px) + rest, |px|, comp) == Some((px, rest))
  {
    hide Stored, Loaded, Raw;
    RawFront(px);
    var s := Raw(px) + rest;
    if px == [] {
      assert s == rest;
    } else {
      RawReads(px[1..], comp, rest);
      LoadedOfStored(px[0]);
      Reassociate(Stored(px[0]), Raw(px[1..]), rest);
      Parts(Stored(px[0]), Raw(px[1..]) + rest);
      assert [px[0]] + px[1..] == px;
    }
  }

  lemma RawStep(px: seq<Pixel>, comp: nat, tail: seq<byte>, m: nat, u: seq<Pixel>, rest: seq<byte>)
    requires 1 <= comp <= 4 && 1 <= |px| <= 128 && IsRow(px, comp) && DecodeRow(tail, m, comp) == Some((u, rest))
    ensures DecodeRow([|px| - 1] + Raw(px) + tail, |px| + m, comp) == Some((px + u, rest))
  {
    hide RawPixels, Raw, Stored;
    var s := [|px| - 1] + Raw(px) + tail;
    assert s[1..] == Raw(px) + tail;
    RawReads(px, comp, tail);
  }

  lemma RunStep(n: nat, p: Pixel, tail: seq<byte>, m: nat, u: seq<Pixel>, rest: seq<byte>)
    requires 1 <= n <= 128 && DecodeRow(tail, m, |p|) == Some((u, rest))
    ensures DecodeRow([n + 127] + Stored(p) + tail, n + m, |p|) == Some((Repeat<Pixel>(n, p) + u, rest))
  {
    hide RawPixels, Stored;
    var s := [n + 127] + Stored(p) + tail;
    assert s[1..1 + |p|] == Stored(p) && s[1 + |p|..] == tail;
    LoadedOfStored(p);
  }

  /** A row read back is the row written, whatever follows it. */
  lemma {:induction false} RowDecodes(row: seq<Pixel>, comp: nat, rest: seq<byte>)
    requires 1 <= comp <= 4 && IsRow(row, comp)
    ensures DecodeRow(RowBytes(row) + rest, |row|, comp) == Some((row, rest))
    decreases |row|
  {
    hide DecodeRow, Packet, PacketLength, RowBytes;
    RowFront(row);
    if row == [] {
      assert [] + rest == rest;
      NothingToDecode(rest, comp);
    } else {
      var n := PacketLength(row);
      var more := RowBytes(row[n..]);
      RowDecodes(row[n..], comp, rest);
      Reassociate(Packet(row), more, rest);
      PacketDecodes(row, comp, more + rest, rest);
    }
  }

  lemma PacketDecodes(row: seq<Pixel>, comp: nat, tail: seq<byte>, rest: seq<byte>)
    requires 1 <= comp <= 4 && IsRow(row, comp) && row != []
    requires DecodeRow(tail, |row| - PacketLength(row), comp) == Some((row[PacketLength(row)..], rest))
    ensures DecodeRow(Packet(row) + tail, |row|, comp) == Some((row, rest))
  {
    hide DecodeRow, Raw, Stored, PacketLength;
    var n := PacketLength(row);
    if IsRun(row) {
      RunStep(n, row[0], tail, |row| - n, row[n..], rest);
      assert Repeat<Pixel>(n, row[0]) + row[n..] == row;
    } else {
      RawStep(row[..n], comp, tail, |row| - n, row[n..], rest);
      assert row[..n] + row[n..] == row;
    }
  }

  lemma NothingToDecode(rest: seq<byte>, comp: nat)
    requires 1 <= comp <= 4
    ensures DecodeRow(rest, 0, comp) == Some(([], rest))
  {
  }

  // ---------- how long it is ----------

  lemma {:induction false} RawBytes(px: seq<Pixel>, comp: nat)
    requires IsRow(px, comp)
    ensures |Raw(px)| == |px| * comp
  {
    if px != [] {
      RawBytes(px[1..], comp);
    }
  }

  /** A row of n pixels takes at most n headers. */
  lemma {:induction false} RowLengthBound(row: seq<Pixel>, comp: nat)
    requires 1 <= comp <= 4 && IsRow(row, comp)
    ensures |RowBytes(row)| <= |row| * (comp + 1)
    decreases |row|
  {
    hide Raw, Stored, PacketLength;
    if row != [] {
      var n := PacketLength(row);
      RowLengthBound(row[n..], comp);
      RawBytes(row[..n], comp);
      PixelFits(n, comp, 0);
      OneHeaderEach(|row|, n, comp);
    }
  }

  lemma PacketSize(row: seq<Pixel>, comp: nat)
    requires 1 <= comp <= 4 && IsRow(row, comp) && row != []
    ensures |Packet(row)| <= 1 + PacketLength(row) * comp
    ensures |RowBytes(row)| == |Packet(row)| + |RowBytes(row[PacketLength(row)..])|
  {
    hide Raw, Stored, PacketLength, RowBytes;
    RowFront(row);
    RawBytes(row[..PacketLength(row)], comp);
    PixelFits(PacketLength(row), comp, 0);
  }

  /** From two pixels on at least one header less: the last two share a packet, or the first packet is longer. */
  lemma {:induction false} RowLength(row: seq<Pixel>, comp: nat)
    requires 1 <= comp <= 4 && IsRow(row, comp) && |row| >= 2
    ensures |RowBytes(row)| <= |row| * (comp + 1) - 1
    decreases |row|
  {
    hide RowBytes, Packet;
    var n := PacketLength(row);
    PacketSize(row, comp);
    OneHeaderEach(|row|, n, comp);
    if n == 1 {
      assert |row| > 2;
      RowLength(row[1..], comp);
    } else {
      RowLengthBound(row[n..], comp);
    }
  }

  lemma OneHeaderEach(m: nat, n: nat, comp: nat)
    requires n <= m
    ensures m * (comp + 1) == n * comp + n + (m - n) * (comp + 1)
  {
    assert m * (comp + 1) == m * comp + m && (m - n) * (comp + 1) == (m - n) * comp + (m - n);
    assert m * comp == n * comp + (m - n) * comp;
  }

  /** A row that alternates between two pixels reaches that: its raw packets hold one pixel each but the last. */
  lemma {:induction false} AlternatingIsWorst(row: seq<Pixel>, comp: nat)
    requires 1 <= comp <= 4 && IsRow(row, comp) && |row| >= 2 && row[0] != row[1]
    requires forall i :: 2 <= i < |row| ==> row[i] == row[i - 2]
    ensures |RowBytes(row)| == |row| * (comp + 1) - 1
    decreases |row|
  {
    hide Raw, Stored;
    var n := PacketLength(row);
    RawBytes(row[..n], comp);
    assert |Packet(row)| == 1 + n * comp;
    if |row| > 2 {
      assert n == 1;
      var rest := row[1..];
      forall i | 2 <= i < |rest| ensures rest[i] == rest[i - 2] {
        var j := i + 1;
        assert row[j] == row[j - 2];
      }
      AlternatingIsWorst(rest, comp);
      OneHeaderEach(|row|, 1, comp);
    } else {
      assert n == 2 && row[n..] == [];
      assert RowBytes(row[n..]) == [];
    }
  }

  // ---------- pixels and rows of the picture in memory ----------

  /** The pixel whose components start at offset a. */
  function At(data: seq<byte>, a: nat, comp: nat): (p: Pixel)
    requires 1 <= comp <= 4 && a + comp <= |data|
    ensures |p| == comp
  {
    data[a..a + comp]
  }

  /** x pixels from offset a on. */
  function Row(data: seq<byte>, a: nat, x: nat, comp: nat): (row: seq<Pixel>)
    requires 1 <= comp <= 4 && a + x * comp <= |data|
    ensures |row| == x && IsRow(row, comp)
  {
    seq(x, k requires 0 <= k < x => (PixelFits(x, comp, k); At(data, a + k * comp, comp)))
  }

  lemma {:induction false} PixelFits(x: nat, comp: nat, k: nat)
    requires k < x
    ensures k * comp + comp <= x * comp
    decreases x - k
  {
    if k + 1 < x {
      PixelFits(x, comp, k + 1);
    }
    assert (k + 1) * comp == k * comp + comp;
  }

  lemma RestOfRow(data: seq<byte>, a: nat, x: nat, comp: nat, n: nat)
    requires 1 <= comp <= 4 && a + x * comp <= |data| && n <= x
    ensures a + n * comp + (x - n) * comp <= |data|
    ensures Row(data, a, x, comp)[n..] == Row(data, a + n * comp, x - n, comp)
  {
    hide At;
    assert n * comp + (x - n) * comp == x * comp;
    forall k | 0 <= k < x - n
      ensures Row(data, a, x, comp)[n..][k] == Row(data, a + n * comp, x - n, comp)[k]
    {
      assert a + (n + k) * comp == a + n * comp + k * comp;
    }
  }

  // ---------- the writer ----------

  /** A pixel of the file: the colours from blue to red, alpha after them. */
  method WritePixel(s: WriteContext.Context, comp: nat, hasAlpha: bool, d: Pixel)
    requires s.Valid() && comp == |d| && hasAlpha == (comp == 2 || comp == 4)
    modifies s, s.buffer
    ensures s.Valid() && s.Output() == old(s.Output()) + Stored(d)
  {
    if comp == 1 || comp == 2 {
      s.Write1(d[0]);
    } else {
      s.Write3(d[2], d[1], d[0]);
    }
    if hasAlpha {
      s.Write1(d[comp - 1]);
    }
  }

  /** The scan for a raw packet; prev runs two pixels behind. */
  method ScanRaw(data: seq<byte>, begin: nat, n: nat, comp: nat) returns (len: nat)
    requires 1 <= comp <= 4 && n >= 2 && begin + n * comp <= |data|
    ensures len == RawLength(Row(data, begin, n, comp), 2)
  {
    hide At;
    ghost var row := Row(data, begin, n, comp);
    len := 2;
    var k, prev := 2, begin;
    while k < n && len < 128
      invariant 2 <= k == len <= n && len <= 128 && prev == begin + (k - 2) * comp
      invariant RawLength(row, k) == RawLength(row, 2)
    {
      PixelFits(n, comp, k);
      PixelFits(n, comp, k - 2);
      if At(data, prev, comp) != At(data, begin + k * comp, comp) {
        assert (k - 2) * comp + comp == (k - 1) * comp;
        prev := prev + comp;
        len := len + 1;
      } else {
        len := len - 1;
        break;
      }
      k := k + 1;
    }
  }

  /** The scan for a run. */
  method ScanRun(data: seq<byte>, begin: nat, n: nat, comp: nat) returns (len: nat)
    requires 1 <= comp <= 4 && n >= 2 && begin + n * comp <= |data| && IsRun(Row(data, begin, n, comp))
    ensures len == RunLength(Row(data, begin, n, comp), 2)
  {
    hide At;
    ghost var row := Row(data, begin, n, comp);
    len := 2;
    var k := 2;
    PixelFits(n, comp, 0);
    while k < n && len < 128
      invariant 2 <= k == len <= n && len <= 128
      invariant forall i :: 0 <= i < k ==> row[i] == row[0]
      invariant RunLength(row, k) == RunLength(row, 2)
    {
      PixelFits(n, comp, k);
      if At(data, begin, comp) == At(data, begin + k * comp, comp) {
        len := len + 1;
      } else {
        break;
      }
      k := k + 1;
    }
  }

  /** The length of the first packet of the n pixels at begin, and whether it is a raw one. */
  method ScanPacket(data: seq<byte>, begin: nat, n: nat, comp: nat) returns (len: nat, diff: bool)
    requires 1 <= comp <= 4 && n >= 1 && begin + n * comp <= |data|
    ensures len == PacketLength(Row(data, begin, n, comp)) && diff == !IsRun(Row(data, begin, n, comp))
  {
    hide At, RawLength, RunLength;
    diff := true;
    len := 1;
    if n > 1 {
      PixelFits(n, comp, 0);
      PixelFits(n, comp, 1);
      diff := At(data, begin, comp) != At(data, begin + 1 * comp, comp);
      if diff {
        len := ScanRaw(data, begin, n, comp);
      } else {
        len := ScanRun(data, begin, n, comp);
      }
    }
  }

  lemma PixelOf(data: seq<byte>, begin: nat, n: nat, comp: nat, len: nat, k: nat)
    requires 1 <= comp <= 4 && k < len <= n && begin + n * comp <= |data|
    ensures begin + k * comp + comp <= |data|
    ensures Row(data, begin, n, comp)[..len][k] == At(data, begin + k * comp, comp)
  {
    PixelFits(n, comp, k);
  }

  /** The first len of the n pixels at begin. */
  method WriteRaw(s: WriteContext.Context, data: seq<byte>, begin: nat, n: nat, comp: nat, hasAlpha: bool, len: nat)
    requires s.Valid() && 1 <= comp <= 4 && hasAlpha == (comp == 2 || comp == 4)
    requires len <= n && begin + n * comp <= |data|
    modifies s, s.buffer
    ensures s.Valid() && s.Output() == old(s.Output()) + Raw(Row(data, begin, n, comp)[..len])
  {
    hide Stored, Raw, At, Row;
    ghost var row := Row(data, begin, n, comp)[..len];
    ghost var all := s.Output() + Raw(row);
    assert row[0..] == row;
    var k := 0;
    while k < len
      invariant s.Valid() && k <= len && s.Output() + Raw(row[k..]) == all
    {
      PixelOf(data, begin, n, comp, len, k);
      DropMore(row, k, 1);
      RawFront(row[k..]);
      Reassociate(s.Output(), Stored(row[k]), Raw(row[k + 1..]));
      WritePixel(s, comp, hasAlpha, At(data, begin + k * comp, comp));
      k := k + 1;
    }
    RawFront(row[k..]);
  }

  /** The first packet of the n pixels at begin. */
  method WritePacket(s: WriteContext.Context, data: seq<byte>, begin: nat, n: nat, comp: nat, hasAlpha: bool)
    returns (len: nat)
    requires s.Valid() && 1 <= comp <= 4 && hasAlpha == (comp == 2 || comp == 4) && n >= 1 && begin + n * comp <= |data|
    modifies s, s.buffer
    ensures s.Valid() && len == PacketLength(Row(data, begin, n, comp))
    ensures s.Output() == old(s.Output()) + Packet(Row(data, begin, n, comp))
  {
    hide PacketLength, IsRun, Stored, Raw, At;
    var diff;
    len, diff := ScanPacket(data, begin, n, comp);
    PixelFits(n, comp, 0);
    if diff {
      s.Write1((len - 1) % 256);
      WriteRaw(s, data, begin, n, comp, hasAlpha, len);
    } else {
      s.Write1((len - 129) % 256);
      WritePixel(s, comp, hasAlpha, At(data, begin, comp));
      assert Row(data, begin, n, comp)[0] == At(data, begin + 0 * comp, comp);
    }
  }

  lemma RawFront(px: seq<Pixel>)
    ensures Raw(px) == if px == [] then [] else Stored(px[0]) + Raw(px[1..])
  {
  }

  lemma RowFront(row: seq<Pixel>)
    ensures RowBytes(row) == if row == [] then [] else Packet(row) + RowBytes(row[PacketLength(row)..])
  {
  }

  /** The packet of the pixels from i on, and where it ends. */
  method WriteNext(s: WriteContext.Context, data: seq<byte>, row: nat, x: nat, comp: nat, hasAlpha: bool, i: nat)
    returns (next: nat)
    requires s.Valid() && 1 <= comp <= 4 && hasAlpha == (comp == 2 || comp == 4) && row + x * comp <= |data| && i < x
    modifies s, s.buffer
    ensures s.Valid() && i < next <= x
    ensures var px := Row(data, row, x, comp);
            s.Output() + RowBytes(px[next..]) == old(s.Output()) + RowBytes(px[i..])
  {
    hide RowBytes, PacketLength, Packet, Row;
    ghost var px, before := Row(data, row, x, comp), s.Output();
    RestOfRow(data, row, x, comp, i);
    RowFront(px[i..]);
    var len := WritePacket(s, data, row + i * comp, x - i, comp, hasAlpha);
    next := i + len;
    DropMore(px, i, len);
    Reassociate(before, Packet(px[i..]), RowBytes(px[next..]));
  }

  method WriteRow(s: WriteContext.Context, data: seq<byte>, row: nat, x: nat, comp: nat, hasAlpha: bool)
    requires s.Valid() && 1 <= comp <= 4 && hasAlpha == (comp == 2 || comp == 4) && row + x * comp <= |data|
    modifies s, s.buffer
    ensures s.Valid() && s.Output() == old(s.Output()) + RowBytes(Row(data, row, x, comp))
  {
    hide RowBytes, Row;
    ghost var px := Row(data, row, x, comp);
    assert px[0..] == px && px[x..] == [];
    var i := 0;
    while i < x
      invariant s.Valid() && i <= x && s.Output() + RowBytes(px[i..]) == old(s.Output()) + RowBytes(px)
    {
      i := WriteNext(s, data, row, x, comp, hasAlpha, i);
    }
    RowFront([]);
    assert s.Output() + [] == s.Output();
  }

  // ---------- the picture ----------

  lemma MulAssoc(a: nat, b: nat, c: nat)
    ensures a * b * c == a * (b * c)
  {
  }

  lemma RowFits(x: nat, y: nat, comp: nat, j: nat)
    requires j < y
    ensures j * x * comp + x * comp <= x * y * comp
  {
    PixelFits(y, x * comp, j);
    MulAssoc(j, x, comp);
    MulAssoc(y, x, comp);
  }

  /** The k-th row written: TGA starts at the bottom, so the last row is first, unless the picture is flipped. */
  function RowOf(data: seq<byte>, x: nat, y: nat, comp: nat, flip: bool, k: nat): (row: seq<Pixel>)
    requires 1 <= comp <= 4 && |data| == x * y * comp && k < y
    ensures |row| == x && IsRow(row, comp)
  {
    var j := if flip then k else y - 1 - k;
    RowFits(x, y, comp, j);
    Row(data, j * x * comp, x, comp)
  }

  function RowsFrom(data: seq<byte>, x: nat, y: nat, comp: nat, flip: bool, k: nat): (rows: seq<seq<Pixel>>)
    requires 1 <= comp <= 4 && |data| == x * y * comp && k <= y
    ensures |rows| == y - k
    decreases y - k
  {
    if k == y then [] else [RowOf(data, x, y, comp, flip, k)] + RowsFrom(data, x, y, comp, flip, k + 1)
  }

  lemma {:induction false} RowsAt(data: seq<byte>, x: nat, y: nat, comp: nat, flip: bool, j: nat, k: nat)
    requires 1 <= comp <= 4 && |data| == x * y * comp && j <= k < y
    ensures RowsFrom(data, x, y, comp, flip, j)[k - j] == RowOf(data, x, y, comp, flip, k)
    decreases k - j
  {
    hide RowOf, RowsFrom;
    RowsFront(data, x, y, comp, flip, j);
    if j < k {
      RowsAt(data, x, y, comp, flip, j + 1, k);
    }
  }

  lemma RowsFront(data: seq<byte>, x: nat, y: nat, comp: nat, flip: bool, j: nat)
    requires 1 <= comp <= 4 && |data| == x * y * comp && j < y
    ensures RowsFrom(data, x, y, comp, flip, j) ==
            [RowOf(data, x, y, comp, flip, j)] + RowsFrom(data, x, y, comp, flip, j + 1)
  {
    hide RowOf;
  }

  lemma RowPixel(data: seq<byte>, a: nat, x: nat, comp: nat, i: nat, c: nat)
    requires 1 <= comp <= 4 && a + x * comp <= |data| && i < x && c < comp
    ensures a + i * comp + c < |data| && Row(data, a, x, comp)[i][c] == data[a + i * comp + c]
  {
    PixelFits(x, comp, i);
  }

  /** Where component c of pixel i in the k-th row of the file is in memory. */
  function Place(x: nat, y: nat, comp: nat, flip: bool, k: nat, i: nat, c: nat): nat
    requires k < y
  {
    (if flip then k else y - 1 - k) * x * comp + i * comp + c
  }

  lemma RowOfIs(data: seq<byte>, x: nat, y: nat, comp: nat, flip: bool, k: nat)
    requires 1 <= comp <= 4 && |data| == x * y * comp && k < y
    ensures var a := (if flip then k else y - 1 - k) * x * comp;
            a + x * comp <= |data| && RowOf(data, x, y, comp, flip, k) == Row(data, a, x, comp)
  {
    hide Row;
    RowFits(x, y, comp, if flip then k else y - 1 - k);
  }

  /** Rows are in memory one after the other, and so are their pixels; the last row comes first unless flipped. */
  lemma PictureIs(data: seq<byte>, x: nat, y: nat, comp: nat, flip: bool, k: nat, i: nat, c: nat)
    requires 1 <= comp <= 4 && |data| == x * y * comp && k < y && i < x && c < comp
    ensures var row, a := RowsFrom(data, x, y, comp, flip, 0)[k], Place(x, y, comp, flip, k, i, c);
            a < |data| && |row| == x && |row[i]| == comp && row[i][c] == data[a]
  {
    hide RowsFrom, RowOf, Row;
    var j := if flip then k else y - 1 - k;
    RowsAt(data, x, y, comp, flip, 0, k);
    RowOfIs(data, x, y, comp, flip, k);
    RowPixel(data, j * x * comp, x, comp, i, c);
  }

  function RowsBytes(rows: seq<seq<Pixel>>): seq<byte> {
    if rows == [] then [] else RowBytes(rows[0]) + RowsBytes(rows[1..])
  }

  function DecodeRows(s: seq<byte>, x: nat, y: nat, comp: nat): Option<(seq<seq<Pixel>>, seq<byte>)>
    requires 1 <= comp <= 4
    decreases y
  {
    if y == 0 then Some(([], s)) else
    match DecodeRow(s, x, comp)
    case None => None
    case Some(row) =>
      match DecodeRows(row.1, x, y - 1, comp)
      case None => None
      case Some(more) => Some(([row.0] + more.0, more.1))
  }

  lemma {:induction false} RowsDecode(data: seq<byte>, x: nat, y: nat, comp: nat, flip: bool, k: nat)
    requires 1 <= comp <= 4 && |data| == x * y * comp && k <= y
    ensures var rows := RowsFrom(data, x, y, comp, flip, k);
            DecodeRows(RowsBytes(rows), x, y - k, comp) == Some((rows, []))
    decreases y - k
  {
    hide DecodeRow, RowBytes, RowOf;
    if k < y {
      var row, more := RowOf(data, x, y, comp, flip, k), RowsFrom(data, x, y, comp, flip, k + 1);
      RowsDecode(data, x, y, comp, flip, k + 1);
      RowDecodes(row, comp, RowsBytes(more));
      assert ([row] + more)[1..] == more;
    }
  }

  /** One row of the picture, j in memory and k in the file. */
  method WriteRowOf(s: WriteContext.Context, x: nat, y: nat, comp: nat, data: seq<byte>, flip: bool, j: nat,
                    ghost k: nat)
    requires s.Valid() && 1 <= comp <= 4 && |data| == x * y * comp && k < y && j == if flip then k else y - 1 - k
    modifies s, s.buffer
    ensures s.Valid()
    ensures s.Output() + RowsBytes(RowsFrom(data, x, y, comp, flip, k + 1)) ==
            old(s.Output()) + RowsBytes(RowsFrom(data, x, y, comp, flip, k))
  {
    hide RowBytes, RowsFrom, RowsBytes, Row;
    NextRow(data, x, y, comp, flip, k);
    var row := j * x * comp;
    ghost var before, more := s.Output(), RowsBytes(RowsFrom(data, x, y, comp, flip, k + 1));
    WriteRow(s, data, row, x, comp, comp == 2 || comp == 4);
    Reassociate(before, RowBytes(Row(data, row, x, comp)), more);
  }

  /** The pixel data of a picture decodes, row by row, to exactly the rows of the picture in file order. */
  method WriteTga(s: WriteContext.Context, x: nat, y: nat, comp: nat, data: seq<byte>, flip: bool)
    requires s.Valid() && 1 <= comp <= 4 && |data| == x * y * comp
    modifies s, s.buffer
    ensures s.Valid() && |s.written| >= |old(s.Output())| && s.written[..|old(s.Output())|] == old(s.Output())
    ensures DecodeRows(s.written[|old(s.Output())|..], x, y, comp) == Some((RowsFrom(data, x, y, comp, flip, 0), []))
  {
    hide DecodeRows, RowsFrom, RowsBytes;
    ghost var first, body := s.Output(), RowsBytes(RowsFrom(data, x, y, comp, flip, 0));
    var j: int, jend: int, jdir: int := y - 1, -1, -1;
    if flip {
      j, jend, jdir := 0, y, 1;
    }
    ghost var k := 0;
    while j != jend
      invariant s.Valid() && 0 <= k <= y && jend == (if flip then y else -1) && jdir == (if flip then 1 else -1)
      invariant j == if flip then k else y - 1 - k
      invariant s.Output() + RowsBytes(RowsFrom(data, x, y, comp, flip, k)) == first + body
      decreases y - k
    {
      WriteRowOf(s, x, y, comp, data, flip, j, k);
      j, k := j + jdir, k + 1;
    }
    s.WriteFlush();
    NoRows(data, x, y, comp, flip);
    assert s.written + [] == s.written == first + body;
    Parts(first, body);
    RowsDecode(data, x, y, comp, flip, 0);
  }

  lemma NoRows(data: seq<byte>, x: nat, y: nat, comp: nat, flip: bool)
    requires 1 <= comp <= 4 && |data| == x * y * comp
    ensures RowsBytes(RowsFrom(data, x, y, comp, flip, y)) == []
  {
  }

  lemma NextRow(data: seq<byte>, x: nat, y: nat, comp: nat, flip: bool, k: nat)
    requires 1 <= comp <= 4 && |data| == x * y * comp && k < y
    ensures var j := if flip then k else y - 1 - k;
            j * x * comp + x * comp <= |data| &&
            RowsBytes(RowsFrom(data, x, y, comp, flip, k)) ==
            RowBytes(Row(data, j * x * comp, x, comp)) + RowsBytes(RowsFrom(data, x, y, comp, flip, k + 1))
  {
    hide RowBytes, Row;
    RowFits(x, y, comp, if flip then k else y - 1 - k);
    var more := RowsFrom(data, x, y, comp, flip, k + 1);
    assert ([RowOf(data, x, y, comp, flip, k)] + more)[1..] == more;
  }
}
