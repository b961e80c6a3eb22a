/**
 The JPEG writer's bit buffer: codes enter at the top of a 24-bit window, whole bytes leave it,
 and every 0xFF byte is followed by a stuffed zero (ITU-T T.81, F.1.2.3).
 */
module JpegBits {
  import opened Bits

  // ---------- bytes, most significant bit first ----------

  function HighByteBits(b: seq<byte>): (s: seq<bool>)
    ensures |s| == 8 * |b|
  {
    if b == [] then [] else HighByteBits(b[..|b| - 1]) + HighBits(b[|b| - 1], 8)
  }

  // ---------- byte stuffing ----------

  function Stuff(raw: seq<byte>): seq<byte> {
    if raw == [] then [] else
    var b := raw[|raw| - 1];
    Stuff(raw[..|raw| - 1]) + StuffByte(b)
  }

  /** The entropy-coded bytes, stuffed zeros removed; None where a marker stands instead. */
  function Unstuff(s: seq<byte>): Option<seq<byte>> {
    if s == [] then Some([])
    else if s[0] != 0xFF then Prepend(s[0], Unstuff(s[1..]))
    else if |s| >= 2 && s[1] == 0 then Prepend(0xFF, Unstuff(s[2..]))
    else None
  }

  function Prepend(b: byte, r: Option<seq<byte>>): Option<seq<byte>> {
    if r.Some? then Some([b] + r.value) else None
  }

  function StuffByte(b: byte): seq<byte> {
    if b == 0xFF then [0xFF, 0] else [b]
  }

  lemma UnstuffStep(b: byte, tail: seq<byte>)
    ensures Unstuff(StuffByte(b) + tail) == Prepend(b, Unstuff(tail))
  {
    assert (StuffByte(b) + tail)[|StuffByte(b)|..] == tail;
  }

  lemma {:induction false} UnstuffOfByte(raw: seq<byte>, tail: seq<byte>, rest: seq<byte>)
    requires Unstuff(tail) == Some(rest)
    ensures Unstuff(Stuff(raw) + tail) == Some(raw + rest)
    decreases |raw|
  {
    hide StuffByte, Unstuff;
    if raw == [] {
      assert Stuff(raw) + tail == tail && raw + rest == rest;
    } else {
      var b, front := raw[|raw| - 1], raw[..|raw| - 1];
      var last := StuffByte(b);
      UnstuffStep(b, tail);
      UnstuffOfByte(front, last + tail, [b] + rest);
      assert Stuff(raw) + tail == Stuff(front) + (last + tail);
      assert raw + rest == front + ([b] + rest);
    }
  }

  /** Unstuffing undoes stuffing. */
  lemma UnstuffOfStuff(raw: seq<byte>)
    ensures Unstuff(Stuff(raw)) == Some(raw)
  {
    UnstuffOfByte(raw, [], []);
    assert Stuff(raw) + [] == Stuff(raw) && raw + [] == raw;
  }

  /** No marker can appear: every 0xFF is followed by a zero. */
  lemma {:induction false} NoMarkers(raw: seq<byte>)
    ensures forall i :: 0 <= i < |Stuff(raw)| && Stuff(raw)[i] == 0xFF ==>
            i + 1 < |Stuff(raw)| && Stuff(raw)[i + 1] == 0
  {
    if raw != [] {
      NoMarkers(raw[..|raw| - 1]);
    }
  }

  // ---------- the window ----------

  lemma {:induction false} HighValueConcat(a: seq<bool>, b: seq<bool>)
    ensures HighValue(a + b) == Shl(HighValue(a), |b|) + HighValue(b)
    decreases |b|
  {
    if b == [] {
      assert a + b == a;
    } else {
      var front, last := b[..|b| - 1], b[|b| - 1];
      HighValueConcat(a, front);
      assert (a + b)[..|a + b| - 1] == a + front;
    }
  }

  lemma {:induction false} ShlAdd(a: nat, b: nat, k: nat)
    ensures Shl(a + b, k) == Shl(a, k) + Shl(b, k)
  {
    if k > 0 {
      ShlAdd(a, b, k - 1);
    }
  }

  lemma {:induction false} ShlShl(a: nat, j: nat, k: nat)
    ensures Shl(Shl(a, j), k) == Shl(a, j + k)
  {
    if k > 0 {
      ShlShl(a, j, k - 1);
    }
  }

  lemma {:induction false} ShlBelow(a: nat, j: nat, k: nat)
    requires a < Pow2(j)
    ensures Shl(a, k) < Pow2(j + k)
  {
    if k > 0 {
      ShlBelow(a, j, k - 1);
    }
  }

  const WINDOW: nat := 0x100_0000
  const WORD: nat := 0x1_0000_0000

  lemma Pow2Window()
    ensures Pow2(16) == 65536 && Pow2(24) == WINDOW
  {
    SmallPowers();
    Pow2Add(16, 8);
  }

  /** The low 24 bits of the buffer are the waiting bits followed by zeros. */
  ghost predicate Holds(bitBuf: nat, waiting: seq<bool>) {
    |waiting| <= 24 && bitBuf < WORD && bitBuf % WINDOW == Shl(HighValue(waiting), 24 - |waiting|)
  }

  /**
   On the writer's 32-bit buffer, or-ing a code into the zeros below the bits in use is an addition: used is where
   those bits end, and place is where the code begins.
   */
  lemma OrBelowIsAdd(buf: bv32, code: bv32, used: bv5, place: bv5)
    requires (buf >> used) << used == buf
    requires (code << place) >> used == 0
    ensures buf | (code << place) == buf + (code << place)
  {
    assert buf & (code << place) == 0;
  }

  /** A code added right below the waiting bits, as OrBelowIsAdd does it, joins them. */
  lemma HoldsMore(bitBuf: nat, waiting: seq<bool>, code: nat, len: nat)
    requires Holds(bitBuf, waiting) && |waiting| + len <= 24 && code < Pow2(len)
    ensures Holds(bitBuf + Shl(code, 24 - |waiting| - len), waiting + HighBits(code, len))
  {
    hide Shl, HighValue, HighBits, Pow2;
    var w, k := HighValue(waiting), 24 - |waiting| - len;
    HighValueConcat(waiting, HighBits(code, len));
    HighValueOfHighBits(code, len);
    ShlAdd(Shl(w, len), code, k);
    ShlShl(w, len, k);
    var all := waiting + HighBits(code, len);
    assert Shl(HighValue(all), k) == Shl(w, len + k) + Shl(code, k);
    ShlBelow(HighValue(all), |all|, k);
    Pow2Window();
    WindowAdd(bitBuf, Shl(code, k));
  }

  lemma WindowAdd(bitBuf: nat, x: nat)
    requires bitBuf < WORD && bitBuf % WINDOW + x < WINDOW
    ensures (bitBuf + x) % WINDOW == bitBuf % WINDOW + x && bitBuf + x < WORD
  {
  }

  /** The byte at the top of the window is the first eight waiting bits; shifting the buffer removes them. */
  lemma HoldsLess(bitBuf: nat, waiting: seq<bool>)
    requires Holds(bitBuf, waiting) && |waiting| >= 8
    ensures bitBuf / 65536 % 256 == HighValue(waiting[..8])
    ensures Holds(bitBuf * 256 % WORD, waiting[8..])
  {
    hide Shl, HighValue, Pow2;
    var a, b := waiting[..8], waiting[8..];
    var k := 24 - |waiting|;
    assert waiting == a + b;
    HighValueConcat(a, b);
    ShlAdd(Shl(HighValue(a), |b|), HighValue(b), k);
    ShlShl(HighValue(a), |b|, k);
    Shl16(HighValue(a));
    ShlBelow(HighValue(b), |b|, k);
    Pow2Window();
    WindowShift(bitBuf, HighValue(a), Shl(HighValue(b), k));
    ShlShl(HighValue(b), k, 8);
    Shl8(Shl(HighValue(b), k));
  }

  lemma Shl8(a: nat)
    ensures Shl(a, 8) == a * 256
  {
    ShlPow2(a, 8);
    SmallPowers();
  }

  lemma Shl16(a: nat)
    ensures Shl(a, 16) == a * 65536
  {
    ShlPow2(a, 16);
    SmallPowers();
  }

  lemma WindowShift(bitBuf: nat, a: nat, b: nat)
    requires bitBuf < WORD && bitBuf % WINDOW == a * 65536 + b && b < 65536
    ensures bitBuf / 65536 % 256 == a
    ensures bitBuf * 256 % WORD % WINDOW == b * 256 && bitBuf * 256 % WORD < WORD
  {
    var q := bitBuf / WINDOW;
    assert bitBuf == q * WINDOW + a * 65536 + b && a < 256 && q < 256;
    assert bitBuf / 65536 == q * 256 + a;
    var x := a * WINDOW + b * 256;
    assert bitBuf * 256 == q * WORD + x && x < WORD;
    assert bitBuf * 256 % WORD == x;
    assert x % WINDOW == b * 256;
  }

  // ---------- the writer ----------

  class Sink {
    var out: seq<byte>            // the bytes handed to the output callback
    var bitBuf: nat               // a 32-bit word; bits above the window are left over from bytes already written
    var bitCnt: nat               // how many bits wait in the window
    ghost var raw: seq<byte>      // the bytes before stuffing
    ghost var waiting: seq<bool>  // the waiting bits

    ghost predicate WellFormed()
      reads this
    {
      out == Stuff(raw) && |waiting| == bitCnt && Holds(bitBuf, waiting)
    }

    ghost predicate Valid()
      reads this
    {
      WellFormed() && bitCnt < 8
    }

    /** Every bit written so far. */
    ghost function Stream(): seq<bool>
      reads this
    {
      HighByteBits(raw) + waiting
    }

    constructor ()
      ensures Valid() && Stream() == []
    {
      out, bitBuf, bitCnt := [], 0, 0;
      raw, waiting := [], [];
      new;
      assert Shl(0, 24) == 0 by { ShlPow2(0, 24); }
    }

    /** stbiw__jpg_writeBits: appends a code of len bits, its high bit first. */
    method WriteBits(code: nat, len: nat)
      requires Valid() && len <= 16 && code < Pow2(len)
      modifies this
      ensures Valid() && Stream() == old(Stream()) + HighBits(code, len)
    {
      hide Holds, Shl, HighValue, Pow2, HighBits;
      bitCnt := bitCnt + len;
      HoldsMore(bitBuf, waiting, code, len);
      bitBuf := bitBuf + Shl(code, 24 - bitCnt);
      waiting := waiting + HighBits(code, len);
      assert Stream() == old(Stream()) + HighBits(code, len);
      while bitCnt >= 8
        invariant WellFormed() && Stream() == old(Stream()) + HighBits(code, len)
      {
        PutByte();
      }
    }

    /** Hands out the byte at the top of the window, with a zero behind it if it is 0xFF. */
    method PutByte()
      requires WellFormed() && bitCnt >= 8
      modifies this
      ensures WellFormed() && bitCnt == old(bitCnt) - 8 && Stream() == old(Stream())
    {
      hide Holds, Shl, HighValue, Pow2, HighBits, Stuff, HighByteBits;
      ghost var first := waiting[..8];
      HoldsLess(bitBuf, waiting);
      var c := bitBuf / 65536 % 256;
      HighBitsOfValue(first);
      RawGrows(raw, c);
      assert old(HighByteBits(raw)) + first + waiting[8..] == Stream();
      out := out + [c];
      if c == 255 {
        out := out + [0];
      }
      bitBuf := bitBuf * 256 % 0x1_0000_0000;
      bitCnt := bitCnt - 8;
      raw := raw + [c];
      waiting := waiting[8..];
    }
  }

  lemma RawGrows(raw: seq<byte>, c: byte)
    ensures Stuff(raw + [c]) == Stuff(raw) + StuffByte(c)
    ensures HighByteBits(raw + [c]) == HighByteBits(raw) + HighBits(c, 8)
  {
    assert (raw + [c])[..|raw|] == raw;
  }

  lemma {:induction false} HighBitsOfValue(s: seq<bool>)
    ensures HighBits(HighValue(s), |s|) == s
  {
    if s != [] {
      HighBitsOfValue(s[..|s| - 1]);
    }
  }
}
