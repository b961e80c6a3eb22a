/**
 Entropy coding of JPEG data units: the writer's code for one 8x8 block and for a whole scan,
 against the decoder of ITU-T T.81, F.2.2 and F.2.1.
 */
module JpegEntropy {
  import opened Bits
  import opened JpegTables
  import JpegBits

  // ---------- the decoder ----------

  /** Procedure DECODE (F.2.2.3): code holds the first len bits; more are taken until a word is complete. */
  function DecodeFrom(t: Table, bits: seq<bool>, len: nat, code: nat): (r: Reading<byte>)
    requires len <= 16
    ensures r.Got? ==> |r.rest| <= |bits|
    decreases 16 - len
  {
    if len >= 1 && MinCode(t, len) <= code < MinCode(t, len) + Count(t, len)
    then Got(Value(t, ValPtr(t, len) + code - MinCode(t, len)), bits)
    else if len == 16 || bits == [] then Bad
    else DecodeFrom(t, bits[1..], len + 1, 2 * code + if bits[0] then 1 else 0)
  }

  function DecodeSymbol(t: Table, bits: seq<bool>): Reading<byte> {
    DecodeFrom(t, bits, 0, 0)
  }

  /** Procedure EXTEND (F.2.2.1): the value with the given extra bits in category t. */
  function Extend(v: nat, t: nat): int {
    if t == 0 then 0 else if v < Pow2(t - 1) then v - Pow2(t) + 1 else v
  }

  function Receive(bits: seq<bool>, t: nat): Reading<int> {
    match Code(bits, t)
    case Bad => Bad
    case Got(v, rest) => Got(Extend(v, t), rest)
  }

  /** The difference to the predicted DC coefficient (F.2.2.1). */
  function DecodeDc(t: Table, bits: seq<bool>): Reading<int> {
    match DecodeSymbol(t, bits)
    case Bad => Bad
    case Got(category, rest) => Receive(rest, category)
  }

  function ZeroRun(n: nat): (s: seq<int>)
    ensures |s| == n
  {
    seq(n, i => 0)
  }

  /** The AC coefficients that follow those already decoded, in zigzag order (F.2.2.2). */
  function DecodeAc(t: Table, zz: seq<int>, bits: seq<bool>): Reading<seq<int>>
    requires |zz| <= 64
    decreases 64 - |zz|
  {
    if |zz| == 64 then Got(zz, bits) else
    match DecodeSymbol(t, bits)
    case Bad => Bad
    case Got(symbol, rest) =>
      var run, size := symbol / 16, symbol % 16;
      if size == 0 then
        if run != 15 then Got(zz + ZeroRun(64 - |zz|), rest)
        else if |zz| + 16 >= 64 then Bad
        else DecodeAc(t, zz + ZeroRun(16), rest)
      else if |zz| + run >= 64 then Bad
      else match Receive(rest, size)
        case Bad => Bad
        case Got(value, rest') => DecodeAc(t, zz + ZeroRun(run) + [value], rest')
  }

  /** One data unit, given the DC coefficient of the last one of its component. */
  function DecodeUnit(dc: Table, ac: Table, pred: int, bits: seq<bool>): Reading<seq<int>> {
    match DecodeDc(dc, bits)
    case Bad => Bad
    case Got(diff, rest) => DecodeAc(ac, [pred + diff], rest)
  }

  // ---------- code words are read back ----------

  lemma DecodeSkips(t: Table, bit: bool, rest: seq<bool>, len: nat, code: nat)
    requires len < 16 && (len >= 1 ==> MinCode(t, len) + Count(t, len) <= code)
    ensures DecodeFrom(t, [bit] + rest, len, code) == DecodeFrom(t, rest, len + 1, 2 * code + if bit then 1 else 0)
  {
    hide MinCode, ValPtr, Count, Value;
    assert ([bit] + rest)[1..] == rest;
  }

  /** A word of the table, read bit by bit, is not mistaken for a shorter one. */
  lemma {:induction false} DecodeReaches(t: Table, code: nat, len: nat, rest: seq<bool>)
    requires len <= 16 && MinCode(t, len) <= code && code < Pow2(len)
    ensures DecodeSymbol(t, HighBits(code, len) + rest) == DecodeFrom(t, rest, len, code)
    decreases len
  {
    hide MinCode, ValPtr, Count, Value, DecodeFrom;
    if len == 0 {
      assert HighBits(code, len) + rest == rest;
    } else {
      var bit := code % 2 == 1;
      assert HighBits(code, len) + rest == HighBits(code / 2, len - 1) + ([bit] + rest);
      MinCodeHalves(t, code, len);
      DecodeReaches(t, code / 2, len - 1, [bit] + rest);
      DecodeSkips(t, bit, rest, len - 1, code / 2);
    }
  }

  /** Half a word of one length lies above every word one bit shorter. */
  lemma MinCodeHalves(t: Table, code: nat, len: nat)
    requires 1 <= len && MinCode(t, len) <= code
    ensures MinCode(t, len - 1) <= code / 2
    ensures len >= 2 ==> MinCode(t, len - 1) + Count(t, len - 1) <= code / 2
  {
    hide Count;
  }

  /** The table has a word for s that fits its length. */
  predicate HasWord(t: Table, s: nat) {
    s < 256 && 1 <= Word(t, s).len <= 16 && Word(t, s).code < Pow2(Word(t, s).len)
  }

  ghost function WordBits(t: Table, s: nat): seq<bool> {
    HighBits(Word(t, s).code, Word(t, s).len)
  }

  lemma SymbolDecodes(t: Table, s: nat, rest: seq<bool>)
    requires HasWord(t, s)
    ensures DecodeSymbol(t, WordBits(t, s) + rest) == Got(s, rest)
  {
    hide MinCode, ValPtr, Count, Value, Word, DecodeSymbol;
    WordsAreAssigned(t, s);
    DecodeReaches(t, Word(t, s).code, Word(t, s).len, rest);
  }

  // ---------- values ----------

  /** The category of a value: how many bits its magnitude takes. */
  function Category(v: nat): (t: nat)
    ensures v < Pow2(t) && (t > 0 ==> Pow2(t - 1) <= v)
  {
    if v == 0 then 0 else 1 + Category(v / 2)
  }

  /** The low bits of v, or of v - 1 when v is negative (F.1.2.1). */
  function ExtraBits(v: int, t: nat): nat {
    (if v < 0 then v - 1 else v) % Pow2(t)
  }

  ghost function ValueBits(v: int): seq<bool> {
    HighBits(ExtraBits(v, Category(Abs(v))), Category(Abs(v)))
  }

  /**
   stbiw__jpg_calcBits; for zero, which no caller passes, one bit comes out and not none. The bits go into an unsigned
   short, which holds all of them exactly up to a count of 16.
   */
  method CalcBits(val: int) returns (bits: nat, count: nat)
    ensures count == if val == 0 then 1 else Category(Abs(val))
    ensures bits == ExtraBits(val, count) % 65536
    ensures count <= 16 ==> bits == ExtraBits(val, count) < Pow2(count)
  {
    hide Pow2;
    var tmp1 := Abs(val);
    var v := if val < 0 then val - 1 else val;
    count := 1;
    tmp1 := tmp1 / 2;
    while tmp1 != 0
      invariant val != 0 ==> Category(Abs(val)) == count + Category(tmp1)
      invariant count >= 1 && (val == 0 ==> count == 1 && tmp1 == 0)
    {
      count := count + 1;
      tmp1 := tmp1 / 2;
    }
    bits := v % Pow2(count);
    if count <= 16 {
      ShortHolds(bits, count);
    }
    bits := bits % 65536;
  }

  lemma ShortHolds(bits: nat, count: nat)
    requires count <= 16 && bits < Pow2(count)
    ensures bits % 65536 == bits
  {
    SmallPowers();
    Pow2Mono(count, 16);
  }

  lemma ExtendOfExtraBits(v: int)
    ensures var t := Category(Abs(v)); ExtraBits(v, t) < Pow2(t) && Extend(ExtraBits(v, t), t) == v
  {
    var t := Category(Abs(v));
    if v < 0 {
      assert Pow2(t) == 2 * Pow2(t - 1);
      assert (v - 1) % Pow2(t) == v - 1 + Pow2(t) by {
        LowRemainder(v - 1, Pow2(t));
      }
    } else if v > 0 {
      LowRemainder(v, Pow2(t));
    }
  }

  lemma LowRemainder(v: int, m: nat)
    requires m >= 1 && -(m as int) <= v < m
    ensures v % m == if v < 0 then v + m else v
  {
    if v < 0 {
      assert v == (-1) * m + (v + m);
    }
  }

  lemma ValueDecodes(v: int, rest: seq<bool>)
    ensures Receive(ValueBits(v) + rest, Category(Abs(v))) == Got(v, rest)
  {
    var t := Category(Abs(v));
    ExtendOfExtraBits(v);
    hide Category, ExtraBits, Extend, HighBits, HighValue;
    HighValueOfHighBits(ExtraBits(v, t), t);
    var bits := HighBits(ExtraBits(v, t), t) + rest;
    assert bits[..t] == HighBits(ExtraBits(v, t), t) && bits[t..] == rest;
  }

  // ---------- one data unit ----------

  /** Quantized coefficients in zigzag order, in the range of the baseline process. */
  ghost predicate IsUnit(zz: seq<int>) {
    |zz| == 64 && forall k :: 1 <= k < 64 ==> Abs(zz[k]) < 1024
  }

  /** The position of the first coefficient from i on that is not zero; 64 if there is none. */
  function NextNonzero(zz: seq<int>, i: nat): (j: nat)
    requires |zz| == 64 && i <= 64
    ensures i <= j <= 64
    ensures forall k :: i <= k < j ==> zz[k] == 0
    ensures j < 64 ==> zz[j] != 0
    decreases 64 - i
  {
    if i < 64 && zz[i] == 0 then NextNonzero(zz, i + 1) else i
  }

  /** n times the symbol for sixteen zeros. */
  ghost function LongRuns(t: Table, n: nat): seq<bool> {
    if n == 0 then [] else WordBits(t, 0xF0) + LongRuns(t, n - 1)
  }

  ghost function CoefficientBits(t: Table, run: nat, v: int): seq<bool> {
    LongRuns(t, run / 16) + WordBits(t, run % 16 * 16 + Category(Abs(v))) + ValueBits(v)
  }

  /** The code of the coefficients from i on: end-of-block if they are all zero, nothing if there are none. */
  ghost function AcBits(t: Table, zz: seq<int>, i: nat): seq<bool>
    requires |zz| == 64 && i <= 64
    decreases 64 - i
  {
    if i == 64 then [] else
    var j := NextNonzero(zz, i);
    if j == 64 then WordBits(t, 0)
    else CoefficientBits(t, j - i, zz[j]) + AcBits(t, zz, j + 1)
  }

  ghost function DcBits(t: Table, diff: int): seq<bool> {
    WordBits(t, Category(Abs(diff))) + ValueBits(diff)
  }

  ghost function UnitBits(dc: Table, ac: Table, pred: int, zz: seq<int>): seq<bool>
    requires |zz| == 64
  {
    DcBits(dc, zz[0] - pred) + AcBits(ac, zz, 1)
  }

  predicate CoversDc(t: Table) {
    forall s: nat :: s <= 11 ==> HasWord(t, s)
  }

  predicate CoversAc(t: Table) {
    HasWord(t, 0) && HasWord(t, 0xF0) &&
    forall s: nat :: s < 256 && 1 <= s % 16 <= 10 ==> HasWord(t, s)
  }

  lemma {:induction false} CategoryBound(v: nat, n: nat)
    requires v < Pow2(n)
    ensures Category(v) <= n
  {
    if v > 0 {
      CategoryBound(v / 2, n - 1);
    }
  }

  lemma SmallCategory(v: int)
    ensures v != 0 ==> Category(Abs(v)) >= 1
    ensures Abs(v) < 1024 ==> Category(Abs(v)) <= 10
    ensures Abs(v) < 2048 ==> Category(Abs(v)) <= 11
  {
    assert Pow2(10) == 1024 && Pow2(11) == 2048;
    if Abs(v) < 1024 {
      CategoryBound(Abs(v), 10);
    }
    if Abs(v) < 2048 {
      CategoryBound(Abs(v), 11);
    }
  }

  lemma DcDecodes(t: Table, diff: int, rest: seq<bool>)
    requires CoversDc(t) && Abs(diff) < 2048
    ensures DecodeDc(t, DcBits(t, diff) + rest) == Got(diff, rest)
  {
    hide WordBits, ValueBits, DecodeSymbol, Receive, Category, HasWord;
    SmallCategory(diff);
    assert DcBits(t, diff) + rest == WordBits(t, Category(Abs(diff))) + (ValueBits(diff) + rest);
    SymbolDecodes(t, Category(Abs(diff)), ValueBits(diff) + rest);
    ValueDecodes(diff, rest);
  }

  /** Runs of sixteen zeros are put back. */
  lemma {:induction false} LongRunsDecode(t: Table, zz: seq<int>, n: nat, rest: seq<bool>)
    requires HasWord(t, 0xF0) && |zz| + 16 * n < 64
    ensures DecodeAc(t, zz, LongRuns(t, n) + rest) == DecodeAc(t, zz + ZeroRun(16 * n), rest)
    decreases n
  {
    hide WordBits, DecodeSymbol, HasWord, Receive;
    if n == 0 {
      assert LongRuns(t, n) + rest == rest;
      assert zz + ZeroRun(0) == zz;
    } else {
      var more := LongRuns(t, n - 1) + rest;
      assert LongRuns(t, n) + rest == WordBits(t, 0xF0) + more;
      SymbolDecodes(t, 0xF0, more);
      LongRunsDecode(t, zz + ZeroRun(16), n - 1, rest);
      assert zz + ZeroRun(16) + ZeroRun(16 * (n - 1)) == zz + ZeroRun(16 * n);
    }
  }

  lemma ShortRunDecodes(t: Table, zz: seq<int>, run: nat, v: int, rest: seq<bool>)
    requires CoversAc(t) && run < 16 && |zz| + run < 64 && v != 0 && Abs(v) < 1024
    ensures DecodeAc(t, zz, WordBits(t, run * 16 + Category(Abs(v))) + (ValueBits(v) + rest))
         == DecodeAc(t, zz + ZeroRun(run) + [v], rest)
  {
    hide WordBits, ValueBits, DecodeSymbol, Receive, Category, HasWord, Abs;
    SmallCategory(v);
    var size := Category(Abs(v));
    var symbol := run * 16 + size;
    assert symbol / 16 == run && symbol % 16 == size;
    assert HasWord(t, symbol);
    SymbolDecodes(t, symbol, ValueBits(v) + rest);
    ValueDecodes(v, rest);
  }

  /** A coefficient and the zeros before it are put back, however many zeros. */
  lemma CoefficientDecodes(t: Table, zz: seq<int>, run: nat, v: int, rest: seq<bool>)
    requires CoversAc(t) && |zz| + run < 64 && v != 0 && Abs(v) < 1024
    ensures DecodeAc(t, zz, CoefficientBits(t, run, v) + rest) == DecodeAc(t, zz + ZeroRun(run) + [v], rest)
  {
    hide WordBits, ValueBits, DecodeAc, Category, HasWord, LongRuns;
    var n, short := run / 16, run % 16;
    var word := WordBits(t, short * 16 + Category(Abs(v)));
    assert CoefficientBits(t, run, v) + rest == LongRuns(t, n) + (word + (ValueBits(v) + rest));
    LongRunsDecode(t, zz, n, word + (ValueBits(v) + rest));
    ShortRunDecodes(t, zz + ZeroRun(16 * n), short, v, rest);
    assert zz + ZeroRun(16 * n) + ZeroRun(short) == zz + ZeroRun(run);
  }

  lemma EndDecodes(t: Table, zz: seq<int>, rest: seq<bool>)
    requires CoversAc(t) && |zz| < 64
    ensures DecodeAc(t, zz, WordBits(t, 0) + rest) == Got(zz + ZeroRun(64 - |zz|), rest)
  {
    hide WordBits, DecodeSymbol, HasWord;
    SymbolDecodes(t, 0, rest);
  }

  lemma FullBlock(t: Table, zz: seq<int>, rest: seq<bool>)
    requires |zz| == 64
    ensures DecodeAc(t, zz, rest) == Got(zz, rest)
  {
  }

  lemma RunBefore(zz: seq<int>, i: nat, j: nat)
    requires i <= j < |zz| && forall k :: i <= k < j ==> zz[k] == 0
    ensures zz[..i] + ZeroRun(j - i) + [zz[j]] == zz[..j + 1]
  {
  }

  lemma RunToEnd(zz: seq<int>, i: nat)
    requires i <= |zz| && forall k :: i <= k < |zz| ==> zz[k] == 0
    ensures zz[..i] + ZeroRun(|zz| - i) == zz
  {
  }

  lemma AcBitsUnfold(t: Table, zz: seq<int>, i: nat)
    requires |zz| == 64 && i <= 64
    ensures i == 64 ==> AcBits(t, zz, i) == []
    ensures i < 64 && NextNonzero(zz, i) == 64 ==> AcBits(t, zz, i) == WordBits(t, 0)
    ensures i < 64 && NextNonzero(zz, i) < 64 ==>
              var j := NextNonzero(zz, i);
              AcBits(t, zz, i) == CoefficientBits(t, j - i, zz[j]) + AcBits(t, zz, j + 1)
  {
    hide CoefficientBits, WordBits, NextNonzero;
  }

  lemma AcEnds(t: Table, zz: seq<int>, i: nat, rest: seq<bool>)
    requires CoversAc(t) && |zz| == 64 && 1 <= i <= 64 && NextNonzero(zz, i) == 64
    ensures DecodeAc(t, zz[..i], AcBits(t, zz, i) + rest) == Got(zz, rest)
  {
    hide WordBits, CoversAc, DecodeAc, NextNonzero, AcBits, ZeroRun;
    AcBitsUnfold(t, zz, i);
    if i == 64 {
      assert zz[..64] == zz && [] + rest == rest;
      FullBlock(t, zz, rest);
    } else {
      EndDecodes(t, zz[..i], rest);
      RunToEnd(zz, i);
    }
  }

  /** The zeros and the coefficient at the front are read back, if what follows is. */
  lemma AcStep(t: Table, zz: seq<int>, i: nat, j: nat, rest: seq<bool>)
    requires CoversAc(t) && |zz| == 64 && 1 <= i < 64 && j == NextNonzero(zz, i) < 64 && Abs(zz[j]) < 1024
    requires DecodeAc(t, zz[..j + 1], AcBits(t, zz, j + 1) + rest) == Got(zz, rest)
    ensures DecodeAc(t, zz[..i], AcBits(t, zz, i) + rest) == Got(zz, rest)
  {
    hide CoefficientBits, CoversAc, DecodeAc, NextNonzero, AcBits, ZeroRun, Abs;
    AcBitsUnfold(t, zz, i);
    var more := AcBits(t, zz, j + 1);
    Reassociate(CoefficientBits(t, j - i, zz[j]), more, rest);
    CoefficientDecodes(t, zz[..i], j - i, zz[j], more + rest);
    RunBefore(zz, i, j);
  }

  /** The AC coefficients of any unit are read back. */
  lemma {:induction false} AcDecodes(t: Table, zz: seq<int>, i: nat, rest: seq<bool>)
    requires CoversAc(t) && IsUnit(zz) && 1 <= i <= 64
    ensures DecodeAc(t, zz[..i], AcBits(t, zz, i) + rest) == Got(zz, rest)
    decreases 64 - i
  {
    hide CoversAc, DecodeAc, NextNonzero, AcBits;
    var j := NextNonzero(zz, i);
    if j == 64 {
      AcEnds(t, zz, i, rest);
    } else {
      AcDecodes(t, zz, j + 1, rest);
      AcStep(t, zz, i, j, rest);
    }
  }

  /** A whole data unit is read back, whatever follows it. */
  lemma UnitDecodes(dc: Table, ac: Table, pred: int, zz: seq<int>, rest: seq<bool>)
    requires CoversDc(dc) && CoversAc(ac) && IsUnit(zz) && Abs(zz[0] - pred) < 2048
    ensures DecodeUnit(dc, ac, pred, UnitBits(dc, ac, pred, zz) + rest) == Got(zz, rest)
  {
    hide DecodeDc, DecodeAc, DcBits, AcBits, CoversDc, CoversAc;
    assert UnitBits(dc, ac, pred, zz) + rest == DcBits(dc, zz[0] - pred) + (AcBits(ac, zz, 1) + rest);
    DcDecodes(dc, zz[0] - pred, AcBits(ac, zz, 1) + rest);
    AcDecodes(ac, zz, 1, rest);
    assert zz[..1] == [zz[0]];
  }

  // ---------- the tables cover what a unit needs ----------

  lemma WordFits(t: Table, s: nat)
    requires s < 256
    ensures Word(t, s).len <= 16
    ensures Word(t, s).len > 0 ==> Word(t, s).code < Pow2(Word(t, s).len)
  {
    hide Word, MinCode, Count, ValPtr, Value;
    WordsAreAssigned(t, s);
    var len := Word(t, s).len;
    if len > 0 {
      CodesFit(t, len);
    }
  }

  /** There are no more code words of a length than bits allow. */
  lemma CodesFit(t: Table, len: nat)
    requires 1 <= len <= 16
    ensures MinCode(t, len) + Count(t, len) <= Pow2(len)
  {
    hide MinCode, ValPtr, Count;
    SmallPowers();
    hide Pow2;
    match t
    case LumDc => LumDcStarts();
    case LumAc => LumAcStarts();
    case ChromDc => ChromDcStarts();
    case ChromAc => ChromAcStarts();
  }

  lemma LumDcCovers()
    ensures CoversDc(LumDc)
  {
    forall s: nat | s <= 11
      ensures HasWord(LumDc, s)
    {
      WordFits(LumDc, s);
    }
  }

  lemma ChromDcCovers()
    ensures CoversDc(ChromDc)
  {
    forall s: nat | s <= 11
      ensures HasWord(ChromDc, s)
    {
      WordFits(ChromDc, s);
    }
  }

  lemma LumAcCovers()
    ensures CoversAc(LumAc)
  {
    WordFits(LumAc, 0);
    WordFits(LumAc, 0xF0);
    forall s: nat | s < 256 && 1 <= s % 16 <= 10
      ensures HasWord(LumAc, s)
    {
      WordFits(LumAc, s);
      LumAcHasLength(s);
    }
  }

  lemma LumAcHasLength(s: nat)
    requires s < 256 && 1 <= s % 16 <= 10
    ensures Word(LumAc, s).len >= 1
  {
  }

  lemma ChromAcCovers()
    ensures CoversAc(ChromAc)
  {
    WordFits(ChromAc, 0);
    WordFits(ChromAc, 0xF0);
    forall s: nat | s < 256 && 1 <= s % 16 <= 10
      ensures HasWord(ChromAc, s)
    {
      WordFits(ChromAc, s);
      ChromAcHasLength(s);
    }
  }

  lemma ChromAcHasLength(s: nat)
    requires s < 256 && 1 <= s % 16 <= 10
    ensures Word(ChromAc, s).len >= 1
  {
  }

  // ---------- the writer's code ----------

  method WriteWord(sink: JpegBits.Sink, t: Table, s: nat)
    requires sink.Valid() && HasWord(t, s)
    modifies sink
    ensures sink.Valid() && sink.Stream() == old(sink.Stream()) + WordBits(t, s)
  {
    hide Word, Pow2;
    sink.WriteBits(Word(t, s).code, Word(t, s).len);
  }

  method WriteValue(sink: JpegBits.Sink, v: int, bits: nat, count: nat)
    requires sink.Valid() && count == Category(Abs(v)) && bits == ExtraBits(v, count) && bits < Pow2(count) &&
             count <= 16
    modifies sink
    ensures sink.Valid() && sink.Stream() == old(sink.Stream()) + ValueBits(v)
  {
    sink.WriteBits(bits, count);
  }

  method WriteDc(sink: JpegBits.Sink, t: Table, diff: int)
    requires sink.Valid() && CoversDc(t) && Abs(diff) < 2048
    modifies sink
    ensures sink.Valid() && sink.Stream() == old(sink.Stream()) + DcBits(t, diff)
  {
    hide WordBits, HasWord, Category, ExtraBits, Pow2, HighBits;
    ghost var start := sink.Stream();
    SmallCategory(diff);
    if diff == 0 {
      WriteWord(sink, t, 0);
      NoBits(t);
    } else {
      var bits, count := CalcBits(diff);
      WriteWord(sink, t, count);
      WriteValue(sink, diff, bits, count);
      assert sink.Stream() == start + DcBits(t, diff);
    }
  }

  lemma NoBits(t: Table)
    ensures DcBits(t, 0) == WordBits(t, 0)
  {
    assert Category(0) == 0 && ValueBits(0) == [];
  }

  method WriteLongRuns(sink: JpegBits.Sink, t: Table, lng: nat)
    requires sink.Valid() && HasWord(t, 0xF0)
    modifies sink
    ensures sink.Valid() && sink.Stream() == old(sink.Stream()) + LongRuns(t, lng)
  {
    hide WordBits, HasWord, Pow2;
    ghost var start := sink.Stream();
    assert start + LongRuns(t, 0) == start;
    for marker := 0 to lng
      invariant sink.Valid() && sink.Stream() == start + LongRuns(t, marker)
    {
      WriteWord(sink, t, 0xF0);
      LongRunsGrow(t, marker);
      assert start + LongRuns(t, marker) + WordBits(t, 0xF0) == start + LongRuns(t, marker + 1);
    }
  }

  method WriteShortRun(sink: JpegBits.Sink, t: Table, nrzeroes: nat, v: int)
    requires sink.Valid() && CoversAc(t) && v != 0 && Abs(v) < 1024 && nrzeroes < 16
    modifies sink
    ensures sink.Valid()
    ensures sink.Stream() == old(sink.Stream()) + (WordBits(t, nrzeroes * 16 + Category(Abs(v))) + ValueBits(v))
  {
    hide WordBits, HasWord, Category, ExtraBits, Pow2, HighBits, ValueBits, Abs;
    SmallCategory(v);
    var bits, count := CalcBits(v);
    var symbol := nrzeroes * 16 + count;
    assert symbol % 16 == count && symbol < 256;
    WriteWord(sink, t, symbol);
    WriteValue(sink, v, bits, count);
  }

  lemma CoefficientBitsAre(t: Table, run: nat, v: int)
    ensures CoefficientBits(t, run, v) ==
            LongRuns(t, run / 16) + (WordBits(t, run % 16 * 16 + Category(Abs(v))) + ValueBits(v))
  {
    hide WordBits, Category, ValueBits, LongRuns, Abs;
  }

  method WriteCoefficient(sink: JpegBits.Sink, t: Table, zeros: nat, v: int)
    requires sink.Valid() && CoversAc(t) && v != 0 && Abs(v) < 1024 && zeros < 64
    modifies sink
    ensures sink.Valid() && sink.Stream() == old(sink.Stream()) + CoefficientBits(t, zeros, v)
  {
    hide WordBits, HasWord, Category, ValueBits, LongRuns, Abs, CoefficientBits;
    ghost var start := sink.Stream();
    ghost var runs := LongRuns(t, zeros / 16);
    ghost var short := WordBits(t, zeros % 16 * 16 + Category(Abs(v))) + ValueBits(v);
    var nrzeroes := zeros;
    if nrzeroes >= 16 {
      WriteLongRuns(sink, t, nrzeroes / 16);
      nrzeroes := nrzeroes % 16;
    } else {
      NoLongRuns(t);
    }
    assert sink.Stream() == start + runs && nrzeroes == zeros % 16;
    WriteShortRun(sink, t, nrzeroes, v);
    Reassociate(start, runs, short);
    CoefficientBitsAre(t, zeros, v);
  }

  lemma NoLongRuns(t: Table)
    ensures LongRuns(t, 0) == []
  {
  }

  lemma {:induction false} LongRunsGrow(t: Table, n: nat)
    ensures LongRuns(t, n + 1) == LongRuns(t, n) + WordBits(t, 0xF0)
  {
    hide WordBits;
    if n > 0 {
      LongRunsGrow(t, n - 1);
      assert LongRuns(t, n + 1) == WordBits(t, 0xF0) + (LongRuns(t, n - 1) + WordBits(t, 0xF0));
    }
  }

  /** The last coefficient that is not zero, 0 if none behind the DC coefficient. */
  method FindEnd(du: seq<int>) returns (end0pos: nat)
    requires |du| == 64
    ensures end0pos < 64 && forall k :: end0pos < k < 64 ==> du[k] == 0
    ensures end0pos > 0 ==> du[end0pos] != 0
  {
    end0pos := 63;
    while end0pos > 0 && du[end0pos] == 0
      invariant end0pos <= 63
      invariant forall k :: end0pos < k < 64 ==> du[k] == 0
    {
      end0pos := end0pos - 1;
    }
  }

  method SkipZeros(du: seq<int>, startpos: nat, end0pos: nat) returns (i: nat)
    requires |du| == 64 && startpos <= end0pos < 64 && du[end0pos] != 0
    ensures startpos <= i <= end0pos && i == NextNonzero(du, startpos)
  {
    i := startpos;
    while du[i] == 0 && i <= end0pos
      invariant startpos <= i <= end0pos
      invariant forall k :: startpos <= k < i ==> du[k] == 0
    {
      i := i + 1;
    }
    NextIs(du, startpos, i);
  }

  /** The zeros from startpos on and the coefficient behind them, and where that is. */
  method WriteNext(sink: JpegBits.Sink, t: Table, du: seq<int>, startpos: nat, end0pos: nat) returns (i: nat)
    requires sink.Valid() && CoversAc(t) && IsUnit(du) && 1 <= startpos <= end0pos < 64 && du[end0pos] != 0
    modifies sink
    ensures sink.Valid() && startpos <= i <= end0pos
    ensures sink.Stream() + AcBits(t, du, i + 1) == old(sink.Stream()) + AcBits(t, du, startpos)
  {
    hide CoefficientBits, AcBits, NextNonzero, Abs, CoversAc;
    ghost var before := sink.Stream();
    i := SkipZeros(du, startpos, end0pos);
    AcBitsUnfold(t, du, startpos);
    WriteCoefficient(sink, t, i - startpos, du[i]);
    Reassociate(before, CoefficientBits(t, i - startpos, du[i]), AcBits(t, du, i + 1));
  }

  method WriteAc(sink: JpegBits.Sink, t: Table, du: seq<int>)
    requires sink.Valid() && CoversAc(t) && IsUnit(du)
    modifies sink
    ensures sink.Valid() && sink.Stream() == old(sink.Stream()) + AcBits(t, du, 1)
  {
    hide WordBits, HasWord, AcBits, Abs;
    ghost var all := sink.Stream() + AcBits(t, du, 1);
    var end0pos := FindEnd(du);
    if end0pos == 0 {
      AllZeroBits(t, du, 1);
      WriteWord(sink, t, 0);
      return;
    }
    var i := 1;
    while i <= end0pos
      invariant 1 <= i <= end0pos + 1
      invariant sink.Valid() && sink.Stream() + AcBits(t, du, i) == all
    {
      i := WriteNext(sink, t, du, i, end0pos);
      i := i + 1;
    }
    if end0pos != 63 {
      AllZeroBits(t, du, i);
      WriteWord(sink, t, 0);
    } else {
      NoMoreBits(t, du);
      assert sink.Stream() + [] == all;
    }
  }

  lemma NoMoreBits(t: Table, zz: seq<int>)
    requires |zz| == 64
    ensures AcBits(t, zz, 64) == []
  {
  }

  /** stbiw__jpg_processDU from the quantized coefficients on; returns the new DC predictor. */
  method WriteUnit(sink: JpegBits.Sink, du: seq<int>, pred: int, dc: Table, ac: Table) returns (newPred: int)
    requires sink.Valid() && CoversDc(dc) && CoversAc(ac) && IsUnit(du) && Abs(du[0] - pred) < 2048
    modifies sink
    ensures sink.Valid() && sink.Stream() == old(sink.Stream()) + UnitBits(dc, ac, pred, du)
    ensures newPred == du[0]
  {
    hide DcBits, AcBits, CoversDc, CoversAc;
    ghost var start := sink.Stream();
    WriteDc(sink, dc, du[0] - pred);
    WriteAc(sink, ac, du);
    assert sink.Stream() == start + UnitBits(dc, ac, pred, du);
    return du[0];
  }

  lemma {:induction false} NextIs(zz: seq<int>, i: nat, j: nat)
    requires |zz| == 64 && i <= j < 64 && zz[j] != 0 && forall k :: i <= k < j ==> zz[k] == 0
    ensures NextNonzero(zz, i) == j
    decreases j - i
  {
    if i < j {
      NextIs(zz, i + 1, j);
    }
  }

  lemma AllZeroBits(t: Table, zz: seq<int>, i: nat)
    requires |zz| == 64 && i < 64 && forall k :: i <= k < 64 ==> zz[k] == 0
    ensures AcBits(t, zz, i) == WordBits(t, 0)
  {
    hide WordBits, CoefficientBits;
  }

  // ---------- a whole scan ----------

  /** A data unit of component 0 (luminance), 1 or 2 (chrominance). */
  datatype Unit = Unit(component: component, zz: seq<int>)

  type component = c: int | 0 <= c < 3

  function DcTable(c: component): Table {
    if c == 0 then LumDc else ChromDc
  }

  function AcTable(c: component): Table {
    if c == 0 then LumAc else ChromAc
  }

  // The scan header as it is in the file, and the byte each table is defined under there: its class, 0 for DC and 1 for
  // AC, and its destination (B.2.3 and B.2.4.2).

  const SCAN_HEADER: seq<byte> := [0xFF, 0xDA, 0, 0xC, 3, 1, 0, 2, 0x11, 3, 0x11, 0, 0x3F, 0]

  function Info(t: Table): byte {
    match t case LumDc => 0 case LumAc => 0x10 case ChromDc => 1 case ChromAc => 0x11
  }

  function TableAt(info: nat): Option<Table> {
    if info == Info(LumDc) then Some(LumDc)
    else if info == Info(LumAc) then Some(LumAc)
    else if info == Info(ChromDc) then Some(ChromDc)
    else if info == Info(ChromAc) then Some(ChromAc)
    else None
  }

  /** A scan of all three components, each a byte for its name and one for its tables, of all coefficients at once. */
  predicate IsScanHeader(h: seq<byte>) {
    && |h| == 14 && h[..5] == [0xFF, 0xDA, 0, 12, 3] && h[5] == 1 && h[7] == 2 && h[9] == 3
    && h[11..] == [0, 63, 0]
  }

  /** The tables a decoder uses for a component, by the selector byte of the scan header: DC above, AC below. */
  function Selected(header: seq<byte>, c: component): Option<(Table, Table)> {
    if !IsScanHeader(header) then None else
    var dc, ac := TableAt(header[6 + 2 * c] / 16), TableAt(0x10 + header[6 + 2 * c] as int % 16);
    if dc.Some? && ac.Some? then Some((dc.value, ac.value)) else None
  }

  /** The writer codes each component with the tables that the scan header names. */
  lemma TablesSelected(c: component)
    ensures Selected(SCAN_HEADER, c) == Some((DcTable(c), AcTable(c)))
    ensures Selected(SCAN_HEADER, 0) == Some((LumDc, LumAc))
    ensures Selected(SCAN_HEADER, 1) == Selected(SCAN_HEADER, 2) == Some((ChromDc, ChromAc))
  {
    assert SCAN_HEADER[6 + 2 * c] == if c == 0 then 0 else 0x11;
  }

  /** Units in range, each DC coefficient close enough to the last one of its component. */
  ghost predicate IsScan(units: seq<Unit>, preds: seq<int>)
    requires |preds| == 3
    decreases |units|
  {
    units == [] ||
    (var u := units[0];
     IsUnit(u.zz) && Abs(u.zz[0] - preds[u.component]) < 2048 &&
     IsScan(units[1..], preds[u.component := u.zz[0]]))
  }

  /** The units of the given components in turn, with the tables the header selects and a predictor for each. */
  function DecodeScan(header: seq<byte>, components: seq<component>, preds: seq<int>, bits: seq<bool>)
    : Reading<seq<seq<int>>>
    requires |preds| == 3
    decreases |components|
  {
    if components == [] then Got([], bits) else
    var c := components[0];
    if Selected(header, c).None? then Bad else
    var (dc, ac) := Selected(header, c).value;
    match DecodeUnit(dc, ac, preds[c], bits)
    case Bad => Bad
    case Got(zz, rest) =>
      if |zz| == 0 then Bad else
      match DecodeScan(header, components[1..], preds[c := zz[0]], rest)
      case Bad => Bad
      case Got(more, rest') => Got([zz] + more, rest')
  }

  function Components(units: seq<Unit>): (cs: seq<component>)
    ensures |cs| == |units|
  {
    seq(|units|, i requires 0 <= i < |units| => units[i].component)
  }

  function Coefficients(units: seq<Unit>): (zs: seq<seq<int>>)
    ensures |zs| == |units|
  {
    seq(|units|, i requires 0 <= i < |units| => units[i].zz)
  }

  ghost function ScanBits(units: seq<Unit>, preds: seq<int>): seq<bool>
    requires |preds| == 3 && IsScan(units, preds)
    decreases |units|
  {
    if units == [] then [] else
    var u := units[0];
    UnitBits(DcTable(u.component), AcTable(u.component), preds[u.component], u.zz)
      + ScanBits(units[1..], preds[u.component := u.zz[0]])
  }

  lemma TablesCover(c: component)
    ensures CoversDc(DcTable(c)) && CoversAc(AcTable(c))
  {
    hide CoversDc, CoversAc;
    LumDcCovers();
    LumAcCovers();
    ChromDcCovers();
    ChromAcCovers();
  }

  /** Every scan is read back unit by unit. */
  lemma {:induction false} ScanDecodes(units: seq<Unit>, preds: seq<int>, rest: seq<bool>)
    requires |preds| == 3 && IsScan(units, preds)
    ensures DecodeScan(SCAN_HEADER, Components(units), preds, ScanBits(units, preds) + rest) ==
            Got(Coefficients(units), rest)
    decreases |units|
  {
    hide DecodeUnit, UnitBits, CoversDc, CoversAc, DcTable, AcTable, Selected;
    if units == [] {
      assert ScanBits(units, preds) + rest == rest;
    } else {
      var u := units[0];
      var preds' := preds[u.component := u.zz[0]];
      var more := ScanBits(units[1..], preds') + rest;
      var dc, ac := DcTable(u.component), AcTable(u.component);
      assert ScanBits(units, preds) + rest == UnitBits(dc, ac, preds[u.component], u.zz) + more;
      TablesCover(u.component);
      TablesSelected(u.component);
      UnitDecodes(dc, ac, preds[u.component], u.zz, more);
      assert Components(units)[1..] == Components(units[1..]);
      ScanDecodes(units[1..], preds', rest);
      assert Coefficients(units) == [u.zz] + Coefficients(units[1..]);
    }
  }

  /** After the seven fill bits, the whole bytes written are the scan and fewer than eight ones. */
  lemma FillLeavesOnes(raw: seq<byte>, waiting: seq<bool>, bits: seq<bool>)
    requires JpegBits.HighByteBits(raw) + waiting == bits + Ones(7) && |waiting| < 8
    ensures JpegBits.HighByteBits(raw) == bits + Ones(7 - |waiting|)
  {
    var all, k := bits + Ones(7), 7 - |waiting|;
    assert JpegBits.HighByteBits(raw) == (JpegBits.HighByteBits(raw) + waiting)[..|all| - |waiting|];
    assert all[..|all| - |waiting|] == bits + Ones(k);
  }

  lemma FillBitsAreOnes()
    ensures HighBits(0x7F, 7) == Ones(7) && 0x7F < Pow2(7)
  {
    SmallPowers();
  }

  /** One unit of the scan, with the tables and the predictor of its component. */
  method WriteScanUnit(sink: JpegBits.Sink, ghost units: seq<Unit>, u: Unit, preds: seq<int>)
    returns (newPreds: seq<int>)
    requires sink.Valid() && |preds| == 3 && units != [] && units[0] == u && IsScan(units, preds)
    modifies sink
    ensures sink.Valid() && newPreds == preds[u.component := u.zz[0]] && IsScan(units[1..], newPreds)
    ensures sink.Stream() + ScanBits(units[1..], newPreds) == old(sink.Stream()) + ScanBits(units, preds)
  {
    hide UnitBits, DcTable, AcTable, CoversDc, CoversAc;
    TablesCover(u.component);
    ghost var before := sink.Stream();
    ghost var bits := UnitBits(DcTable(u.component), AcTable(u.component), preds[u.component], u.zz);
    ghost var more := ScanBits(units[1..], preds[u.component := u.zz[0]]);
    assert ScanBits(units, preds) == bits + more;
    hide ScanBits;
    var newPred := WriteUnit(sink, u.zz, preds[u.component], DcTable(u.component), AcTable(u.component));
    newPreds := preds[u.component := newPred];
    assert before + (bits + more) == before + bits + more;
  }

  lemma NoScanBits(preds: seq<int>)
    requires |preds| == 3
    ensures IsScan([], preds) && ScanBits([], preds) == []
  {
  }

  method WriteUnits(sink: JpegBits.Sink, units: seq<Unit>)
    requires sink.Valid() && IsScan(units, [0, 0, 0])
    modifies sink
    ensures sink.Valid() && sink.Stream() == old(sink.Stream()) + ScanBits(units, [0, 0, 0])
  {
    hide ScanBits, IsScan, IsUnit;
    var preds := [0, 0, 0];
    ghost var all := sink.Stream() + ScanBits(units, preds);
    assert units[0..] == units;
    for i := 0 to |units|
      invariant sink.Valid() && |preds| == 3 && IsScan(units[i..], preds)
      invariant sink.Stream() + ScanBits(units[i..], preds) == all
    {
      preds := WriteScanUnit(sink, units[i..], units[i], preds);
      assert units[i..][1..] == units[i + 1..];
    }
    assert units[|units|..] == [];
    NoScanBits(preds);
    assert sink.Stream() + [] == all;
  }

  /**
   The entropy-coded segment of stbi_write_jpg_core, from the quantized units on: fill bits and end-of-image marker
   included. Without its stuffed zeros it decodes to the units, and fewer than eight one-bits are left.
   */
  method WriteScan(units: seq<Unit>) returns (segment: seq<byte>, ghost k: nat)
    requires IsScan(units, [0, 0, 0])
    ensures |segment| >= 2 && segment[|segment| - 2..] == [0xFF, 0xD9]
    ensures var raw := JpegBits.Unstuff(segment[..|segment| - 2]);
            raw.Some? && k < 8 &&
            DecodeScan(SCAN_HEADER, Components(units), [0, 0, 0], JpegBits.HighByteBits(raw.value)) ==
            Got(Coefficients(units), Ones(k))
  {
    hide DecodeScan, ScanBits, IsScan, Ones, HighBits, Pow2;
    hide JpegBits.HighByteBits, JpegBits.Stuff, JpegBits.Unstuff, JpegBits.Holds;
    var sink := new JpegBits.Sink();
    WriteUnits(sink, units);
    ghost var all := ScanBits(units, [0, 0, 0]);
    assert sink.Stream() == all;
    FillBitsAreOnes();
    sink.WriteBits(0x7F, 7);
    FillLeavesOnes(sink.raw, sink.waiting, all);
    k := 7 - |sink.waiting|;
    JpegBits.UnstuffOfStuff(sink.raw);
    ScanDecodes(units, [0, 0, 0], Ones(k));
    segment := sink.out + [0xFF, 0xD9];
    assert segment[..|segment| - 2] == sink.out;
  }
}
