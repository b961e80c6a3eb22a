/**
 The compressor's output side: a stretchy byte buffer with a bit buffer in front of it.
 */
module ZlibWriter {
  import opened Bits

  /** The bits the compressor must emit for a literal/length symbol: its fixed Huffman code, high bit first. */
  function SymbolBits(n: nat): seq<bool>
    requires n < 288
  {
    if n <= 143 then HighBits(0x30 + n, 8)
    else if n <= 255 then HighBits(0x190 + (n - 144), 9)
    else if n <= 279 then HighBits(n - 256, 7)
    else HighBits(0xC0 + (n - 280), 8)
  }

  /** On the compressor's 32-bit buffer, or-ing bits above the ones in use is an addition that loses nothing. */
  lemma OrAboveIsAdd(buf: bv32, code: bv32, count: bv5)
    requires buf >> count == 0
    requires (code << count) >> count == code
    ensures buf | (code << count) == buf + (code << count)
  {
    assert buf & (code << count) == 0;
  }

  /** Reverses the low codebits bits of code, so that least-significant-first output sends its high bit first. */
  method BitReverse(code: nat, codebits: nat) returns (res: nat)
    ensures res < Pow2(codebits)
    ensures LowBits(res, codebits) == HighBits(code, codebits)
  {
    res := 0;
    var rest, k := code, codebits;
    while k > 0
      invariant 0 <= k <= codebits
      invariant res < Pow2(codebits - k)
      invariant HighBits(rest, k) + LowBits(res, codebits - k) == HighBits(code, codebits)
    {
      ghost var before, done := HighBits(rest, k), LowBits(res, codebits - k);
      var bit := rest % 2;
      res := 2 * res + bit;
      rest := rest / 2;
      k := k - 1;
      assert LowBits(res, codebits - k) == [bit == 1] + done;
      assert before == HighBits(rest, k) + [bit == 1];
      assert HighBits(rest, k) + ([bit == 1] + done) == before + done;
    }
  }

  class Writer {
    var data: array<byte>  // the stretchy buffer; length 0 stands for the null pointer
    var n: nat             // how many of its bytes are in use
    var bitbuf: nat        // bits not yet flushed, the oldest lowest
    var bitcount: nat      // how many

    /** The buffer's own bookkeeping: a byte is always left over once anything was pushed. */
    ghost predicate WellFormed()
      reads this
    {
      (n < data.Length || (n == 0 && data.Length == 0)) && bitbuf < Pow2(bitcount)
    }

    /** Between two calls fewer than eight bits wait in the bit buffer. */
    ghost predicate Valid()
      reads this
    {
      WellFormed() && bitcount < 8
    }

    function Contents(): (s: seq<byte>)
      requires n <= data.Length
      reads this, data
      ensures |s| == n
    {
      data[..n]
    }

    /** Everything written so far, as a bit string. */
    ghost function Stream(): (s: seq<bool>)
      requires n <= data.Length
      reads this, data
      ensures |s| == 8 * n + bitcount
    {
      ByteBits(Contents()) + LowBits(bitbuf, bitcount)
    }

    constructor ()
      ensures Valid() && Contents() == [] && bitcount == 0 && fresh(data)
    {
      data := new byte[0];
      n, bitbuf, bitcount := 0, 0, 0;
    }

    /** Reallocates to twice the capacity and one more byte, keeping the contents. */
    method Grow()
      requires WellFormed()
      modifies this`data
      ensures WellFormed() && fresh(data) && n + 1 < data.Length
      ensures data.Length == if old(data.Length) == 0 then 2 else 2 * old(data.Length) + 1
      ensures Contents() == old(Contents())
    {
      var m := if data.Length == 0 then 2 else 2 * data.Length + 1;
      var p := new byte[m];
      forall i | 0 <= i < n {
        p[i] := data[i];
      }
      data := p;
    }

    method Push(v: byte)
      requires WellFormed()
      modifies this`data, this`n, data
      ensures WellFormed() && (data == old(data) || fresh(data))
      ensures data.Length >= old(data.Length)
      ensures Contents() == old(Contents()) + [v]
    {
      if data.Length == 0 || n + 1 >= data.Length {
        Grow();
      }
      data[n] := v;
      n := n + 1;
    }

    /** Moves whole bytes from the bit buffer to the byte buffer; the stream stays the same. */
    method Flush()
      requires WellFormed()
      modifies this, data
      ensures Valid() && (data == old(data) || fresh(data))
      ensures data.Length >= old(data.Length)
      ensures Stream() == old(Stream())
    {
      hide LowBits, ByteBits, Pow2;
      while bitcount >= 8
        invariant WellFormed() && (data == old(data) || fresh(data))
        invariant data.Length >= old(data.Length)
        invariant Stream() == old(Stream())
      {
        ghost var bytes, waiting := Contents(), LowBits(bitbuf, bitcount);
        LowBitsSplit8(bitbuf, bitcount - 8);
        ByteBitsConcat(bytes, [bitbuf % 256]);
        ByteBitsSingleton(bitbuf % 256);
        HalvesBelow(bitbuf, bitcount);
        Push(bitbuf % 256);
        bitbuf := bitbuf / 256;
        bitcount := bitcount - 8;
        assert ByteBits(bytes) + waiting == Stream();
      }
    }

    /** Appends a bit field, least significant bit first. */
    method Add(code: nat, codebits: nat)
      requires Valid()
      requires code < Pow2(codebits) && codebits <= 13
      modifies this, data
      ensures Valid() && (data == old(data) || fresh(data))
      ensures data.Length >= old(data.Length)
      ensures Stream() == old(Stream()) + LowBits(code, codebits)
    {
      hide LowBits, ByteBits, Pow2, Shl;
      LowBitsConcat(bitbuf, bitcount, code, codebits);
      ConcatFits(bitbuf, bitcount, code, codebits);
      ghost var before, waiting := ByteBits(Contents()), LowBits(bitbuf, bitcount);
      bitbuf := bitbuf + Shl(code, bitcount);
      bitcount := bitcount + codebits;
      FitsWord(bitbuf, bitcount);
      assert bitbuf < 0x1_0000_0000;  // no bit leaves the 32-bit buffer
      assert before + (waiting + LowBits(code, codebits)) == (before + waiting) + LowBits(code, codebits);
      Flush();
    }

    /** Appends a Huffman code, most significant bit first. */
    method HuffAdd(code: nat, codebits: nat)
      requires Valid() && codebits <= 13
      modifies this, data
      ensures Valid() && (data == old(data) || fresh(data))
      ensures data.Length >= old(data.Length)
      ensures Stream() == old(Stream()) + HighBits(code, codebits)
    {
      var reversed := BitReverse(code, codebits);
      Add(reversed, codebits);
    }

    method Huff(symbol: nat)
      requires Valid() && symbol < 288
      modifies this, data
      ensures Valid() && (data == old(data) || fresh(data))
      ensures data.Length >= old(data.Length)
      ensures Stream() == old(Stream()) + SymbolBits(symbol)
    {
      hide HighBits, LowBits, ByteBits, Pow2;
      if symbol <= 143 {
        HuffAdd(0x30 + symbol, 8);
      } else if symbol <= 255 {
        HuffAdd(0x190 + symbol - 144, 9);
      } else if symbol <= 279 {
        HuffAdd(symbol - 256, 7);
      } else {
        HuffAdd(0xC0 + symbol - 280, 8);
      }
    }

    /** The variant for literals, which never reach the shorter codes. */
    method HuffLiteral(b: byte)
      requires Valid()
      modifies this, data
      ensures Valid() && (data == old(data) || fresh(data))
      ensures data.Length >= old(data.Length)
      ensures Stream() == old(Stream()) + SymbolBits(b)
    {
      hide HighBits, LowBits, ByteBits, Pow2;
      if b <= 143 {
        assert SymbolBits(b) == HighBits(0x30 + b, 8);
        HuffAdd(0x30 + b, 8);
      } else {
        assert SymbolBits(b) == HighBits(0x190 + b - 144, 9);
        HuffAdd(0x190 + b - 144, 9);
      }
    }

    /** Pads with zero bits to a byte boundary. */
    method Pad()
      requires Valid()
      modifies this, data
      ensures Valid() && (data == old(data) || fresh(data))
      ensures data.Length >= old(data.Length)
      ensures bitcount == 0 && Stream() == ByteBits(Contents())
      ensures exists k: nat :: k < 8 && Stream() == old(Stream()) + Zeros(k)
    {
      ghost var k: nat := 0;
      assert Stream() == old(Stream()) + Zeros(0);
      while bitcount > 0
        invariant Valid() && (data == old(data) || fresh(data))
        invariant data.Length >= old(data.Length)
        invariant k < 8 && Stream() == old(Stream()) + Zeros(k)
        invariant bitcount > 0 ==> k + 8 - bitcount < 8
        decreases if bitcount > 0 then 8 - bitcount else 0
      {
        assert LowBits(0, 1) == [false];
        ghost var before := Stream();
        ghost var c := bitcount;
        Add(0, 1);
        assert before + [false] == old(Stream()) + Zeros(k + 1);
        k := k + 1;
      }
    }

    /** Forgets all but the first count bytes; the capacity stays. */
    method Truncate(count: nat)
      requires Valid() && count <= n
      modifies this`n
      ensures Valid() && Contents() == old(Contents())[..count]
    {
      n := count;
    }

    /** Copies bytes behind the contents without growing the buffer: the caller must know they fit. */
    method CopyUnchecked(src: seq<byte>)
      requires Valid() && n + |src| < data.Length
      modifies this`n, data
      ensures Valid() && Contents() == old(Contents()) + src
    {
      forall i | 0 <= i < |src| {
        data[n + i] := src[i];
      }
      n := n + |src|;
    }
  }

  lemma HalvesBelow(v: nat, k: nat)
    requires k >= 8 && v < Pow2(k)
    ensures v / 256 < Pow2(k - 8)
  {
    Pow2Add(8, k - 8);
    SmallPowers();
  }

  lemma FitsWord(v: nat, k: nat)
    requires k <= 20 && v < Pow2(k)
    ensures v < 0x1_0000_0000
  {
    Pow2Mono(k, 32);
    SmallPowers();
    Pow2Add(16, 16);
  }
}
