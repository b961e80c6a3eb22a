/** The output side of the image writers: a callback that takes bytes, and a 64-byte buffer in front of it. */
module WriteContext {
  import opened Bits

  class Context {
    ghost var written: seq<byte>   // what the callback has been given
    const buffer: array<byte>
    var bufUsed: nat

    ghost predicate Valid()
      reads this
    {
      buffer.Length == 64 && bufUsed <= 64
    }

    /** Everything put out so far, passed on or still buffered. */
    ghost function Output(): seq<byte>
      requires Valid()
      reads this, buffer
    {
      written + buffer[..bufUsed]
    }

    constructor ()
      ensures Valid() && fresh(this) && fresh(buffer) && bufUsed == 0 && written == []
    {
      buffer := new byte[64];
      bufUsed, written := 0, [];
    }

    /** The callback; called directly it must find the buffer empty, or bytes would change places. */
    method Func(bytes: seq<byte>)
      requires Valid()
      modifies this`written
      ensures written == old(written) + bytes
    {
      written := written + bytes;
    }

    method WriteFlush()
      requires Valid()
      modifies this
      ensures Valid() && bufUsed == 0 && Output() == old(Output()) == written
    {
      if bufUsed != 0 {
        Func(buffer[..bufUsed]);
        bufUsed := 0;
      }
    }

    method Write1(a: byte)
      requires Valid()
      modifies this, buffer
      ensures Valid() && Output() == old(Output()) + [a]
    {
      if bufUsed + 1 > 64 {
        WriteFlush();
      }
      buffer[bufUsed] := a;
      bufUsed := bufUsed + 1;
    }

    method Write3(a: byte, b: byte, c: byte)
      requires Valid()
      modifies this, buffer
      ensures Valid() && Output() == old(Output()) + [a, b, c]
    {
      if bufUsed + 3 > 64 {
        WriteFlush();
      }
      var n := bufUsed;
      bufUsed := n + 3;
      buffer[n] := a;
      buffer[n + 1] := b;
      buffer[n + 2] := c;
    }
  }
}
