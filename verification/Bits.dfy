/** Bytes, bit strings and the two bit orders the image encoders use, and a few functions shared by all modules. */
module Bits {

  type byte = x: int | 0 <= x < 256

  datatype Option<+T> = None | Some(value: T)

  function Min(a: int, b: int): int {
    if a < b then a else b
  }

  function Max(a: int, b: int): int {
    if a < b then b else a
  }

  function Abs(v: int): nat {
    if v < 0 then -v else v
  }

  function Repeat<T>(n: nat, x: T): (s: seq<T>)
    ensures |s| == n
  {
    seq(n, i => x)
  }

  /** What a decoder reads, with something it read before put in front. */
  function Prefixed<T>(head: seq<T>, r: Option<(seq<T>, seq<byte>)>): Option<(seq<T>, seq<byte>)> {
    match r case None => None case Some(p) => Some((head + p.0, p.1))
  }

  lemma Reassociate<T>(a: seq<T>, b: seq<T>, c: seq<T>)
    ensures a + b + c == a + (b + c)
  {
  }

  /** A sequence put together comes apart again. */
  lemma Parts<T>(a: seq<T>, b: seq<T>)
    ensures (a + b)[..|a|] == a && (a + b)[|a|..] == b
  {
  }

  /** Dropping n after m is dropping both. */
  lemma DropMore<T>(s: seq<T>, m: nat, n: nat)
    requires m + n <= |s|
    ensures s[m..][n..] == s[m + n..]
    ensures n > 0 ==> s[m..][0] == s[m]
  {
  }

  function Pow2(k: nat): (p: nat)
    ensures p >= 1
  {
    if k == 0 then 1 else 2 * Pow2(k - 1)
  }

  /** c << k on unbounded integers. */
  function Shl(c: nat, k: nat): nat {
    if k == 0 then c else 2 * Shl(c, k - 1)
  }

  /** The k low bits of v, least significant bit first. */
  function LowBits(v: nat, k: nat): (s: seq<bool>)
    ensures |s| == k
  {
    if k == 0 then [] else [v % 2 == 1] + LowBits(v / 2, k - 1)
  }

  /** The number whose bits, least significant first, are s. */
  function LowValue(s: seq<bool>): (v: nat)
    ensures v < Pow2(|s|)
  {
    if s == [] then 0 else (if s[0] then 1 else 0) + 2 * LowValue(s[1..])
  }

  /** The k low bits of v, most significant bit first. */
  function HighBits(v: nat, k: nat): (s: seq<bool>)
    ensures |s| == k
  {
    if k == 0 then [] else HighBits(v / 2, k - 1) + [v % 2 == 1]
  }

  /** The number whose bits, most significant first, are s. */
  function HighValue(s: seq<bool>): (v: nat)
    ensures v < Pow2(|s|)
  {
    if s == [] then 0 else 2 * HighValue(s[..|s| - 1]) + (if s[|s| - 1] then 1 else 0)
  }

  /** A byte string as a bit string, each byte least significant bit first (RFC 1951, section 3.1.1). */
  function ByteBits(b: seq<byte>): (s: seq<bool>)
    ensures |s| == 8 * |b|
  {
    if b == [] then [] else LowBits(b[0], 8) + ByteBits(b[1..])
  }

  function Zeros(k: nat): (s: seq<bool>)
    ensures |s| == k
  {
    seq(k, i => false)
  }

  function Ones(k: nat): (s: seq<bool>)
    ensures |s| == k
  {
    seq(k, i => true)
  }

  // ---------- reading bits ----------

  /** The result of reading one item from the front of a bit string: the item and what follows it. */
  datatype Reading<+T> = Bad | Got(value: T, rest: seq<bool>)

  /** A k-bit number, most significant bit first. */
  function Code(bits: seq<bool>, k: nat): (r: Reading<nat>)
    ensures r.Got? ==> |r.rest| == |bits| - k
  {
    if |bits| < k then Bad else Got(HighValue(bits[..k]), bits[k..])
  }

  // ---------- values and bit strings are inverse ----------

  lemma {:induction false} LowValueOfLowBits(v: nat, k: nat)
    requires v < Pow2(k)
    ensures LowValue(LowBits(v, k)) == v
  {
    if k == 0 {
    } else {
      LowValueOfLowBits(v / 2, k - 1);
      assert LowBits(v, k)[1..] == LowBits(v / 2, k - 1);
    }
  }

  lemma {:induction false} HighValueOfHighBits(v: nat, k: nat)
    requires v < Pow2(k)
    ensures HighValue(HighBits(v, k)) == v
  {
    if k == 0 {
    } else {
      HighValueOfHighBits(v / 2, k - 1);
      assert HighBits(v, k)[..k - 1] == HighBits(v / 2, k - 1);
    }
  }

  // ---------- concatenating bit strings ----------

  lemma {:induction false} ShlPow2(c: nat, k: nat)
    ensures Shl(c, k) == c * Pow2(k)
  {
    if k == 0 {
    } else {
      ShlPow2(c, k - 1);
    }
  }

  lemma LowBitsStep(v: nat, k: nat)
    requires k > 0
    ensures LowBits(v, k) == [v % 2 == 1] + LowBits(v / 2, k - 1)
  {
  }

  lemma ShlStep(b: nat, k: nat, c: nat)
    requires k > 0
    ensures (b + Shl(c, k)) / 2 == b / 2 + Shl(c, k - 1) && (b + Shl(c, k)) % 2 == b % 2
  {
  }

  /** Placing c above the k bits of b concatenates the two bit strings. */
  lemma {:induction false} LowBitsConcat(b: nat, k: nat, c: nat, n: nat)
    requires b < Pow2(k)
    ensures LowBits(b + Shl(c, k), k + n) == LowBits(b, k) + LowBits(c, n)
  {
    if k == 0 {
    } else {
      hide LowBits, Shl;
      LowBitsConcat(b / 2, k - 1, c, n);
      ShlStep(b, k, c);
      LowBitsStep(b + Shl(c, k), k + n);
      LowBitsStep(b, k);
    }
  }

  lemma {:induction false} ConcatFits(b: nat, k: nat, c: nat, n: nat)
    requires b < Pow2(k) && c < Pow2(n)
    ensures b + Shl(c, k) < Pow2(k + n)
  {
    if k > 0 {
      ConcatFits(b / 2, k - 1, c, n);
      ShlStep(b, k, c);
    }
  }

  lemma SmallPowers()
    ensures Pow2(0) == 1 && Pow2(1) == 2 && Pow2(2) == 4 && Pow2(3) == 8 && Pow2(4) == 16 && Pow2(5) == 32
    ensures Pow2(6) == 64 && Pow2(7) == 128 && Pow2(8) == 256 && Pow2(9) == 512 && Pow2(10) == 1024 && Pow2(11) == 2048
    ensures Pow2(12) == 4096 && Pow2(13) == 8192 && Pow2(14) == 16384 && Pow2(15) == 32768 && Pow2(16) == 65536
  {
  }

  /** Splitting off the low byte of a bit buffer. */
  lemma LowBitsSplit8(v: nat, n: nat)
    ensures LowBits(v, 8 + n) == LowBits(v % 256, 8) + LowBits(v / 256, n)
  {
    var q, r := v / 256, v % 256;
    SmallPowers();
    ShlPow2(q, 8);
    LowBitsConcat(r, 8, q, n);
  }

  lemma ByteBitsFront(x: byte, rest: seq<byte>)
    ensures ByteBits([x] + rest) == LowBits(x, 8) + ByteBits(rest)
  {
    hide LowBits;
    Parts([x], rest);
  }

  lemma {:induction false} ByteBitsConcat(a: seq<byte>, b: seq<byte>)
    ensures ByteBits(a + b) == ByteBits(a) + ByteBits(b)
  {
    hide LowBits, ByteBits;
    if a == [] {
      assert a + b == b && ByteBits([]) == [];
    } else {
      var x, rest := a[0], a[1..];
      assert a == [x] + rest;
      ByteBitsConcat(rest, b);
      ByteBitsFront(x, rest);
      Reassociate([x], rest, b);
      ByteBitsFront(x, rest + b);
      Reassociate(LowBits(x, 8), ByteBits(rest), ByteBits(b));
    }
  }

  lemma ByteBitsSingleton(x: byte)
    ensures ByteBits([x]) == LowBits(x, 8)
  {
  }

  lemma {:induction false} LowBitsOfZero(k: nat)
    ensures LowBits(0, k) == Zeros(k)
  {
    if k == 0 {
    } else {
      LowBitsOfZero(k - 1);
    }
  }

  lemma {:induction false} Pow2Add(a: nat, b: nat)
    ensures Pow2(a + b) == Pow2(a) * Pow2(b)
  {
    if a == 0 {
    } else {
      Pow2Add(a - 1, b);
    }
  }

  lemma {:induction false} Pow2Mono(a: nat, b: nat)
    requires a <= b
    ensures Pow2(a) <= Pow2(b)
  {
    if a < b {
      Pow2Mono(a, b - 1);
    }
  }
}
