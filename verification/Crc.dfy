/**
 CRC-32: the table-driven loop against bit-at-a-time polynomial division (RFC 2083, section 3.4).
 */
module Crc {
  import Bits

  const POLYNOMIAL: bv32 := 0xEDB88320

  function Xor(a: bv32, b: bv32): bv32 { a ^ b }

  function Half(c: bv32): bv32 { c >> 1 }

  predicate Odd(c: bv32) { c & 1 == 1 }

  /** One step of the division: the register moves one bit, and the polynomial is taken out if a one falls off. */
  function Step(c: bv32): bv32 {
    if Odd(c) then Xor(POLYNOMIAL, Half(c)) else Half(c)
  }

  function Step8(c: bv32): bv32 {
    Step(Step(Step(Step(Step(Step(Step(Step(c))))))))
  }

  /** The low byte of the register. */
  function Low(c: bv32): bv8 { (c & 0xFF) as bv8 }

  /** A message byte as a register value. */
  function Wide(b: Bits.byte): bv32 { (b as bv8) as bv32 }

  /** A message bit as a register value. */
  function Bit(b: bool): bv32 { if b then 1 else 0 }

  /** The serial register: each bit enters at the low end, and one step of the division follows. */
  function Feed(c: bv32, bits: seq<bool>): bv32
    decreases |bits|
  {
    if bits == [] then c else Feed(Step(Xor(c, Bit(bits[0]))), bits[1..])
  }

  /** The register after the message, the bits of each byte entering least significant bit first. */
  function Register(m: seq<Bits.byte>): bv32 {
    Feed(0xFFFFFFFF, Bits.ByteBits(m))
  }

  /** The checksum: the complement of the register. */
  function Crc32(m: seq<Bits.byte>): bv32 {
    !Register(m)
  }

  // The precomputed table, sixteen entries a row; every entry is eight division steps on its index.

  function Row0(k: bv8): (r: bv32)
    requires k < 16
    ensures r == Step8(0x00 | (k as bv32))
  {
    match k
    case 0x0 => 0x00000000 case 0x1 => 0x77073096 case 0x2 => 0xEE0E612C case 0x3 => 0x990951BA
    case 0x4 => 0x076DC419 case 0x5 => 0x706AF48F case 0x6 => 0xE963A535 case 0x7 => 0x9E6495A3
    case 0x8 => 0x0EDB8832 case 0x9 => 0x79DCB8A4 case 0xA => 0xE0D5E91E case 0xB => 0x97D2D988
    case 0xC => 0x09B64C2B case 0xD => 0x7EB17CBD case 0xE => 0xE7B82D07 case _ => 0x90BF1D91
  }

  function Row1(k: bv8): (r: bv32)
    requires k < 16
    ensures r == Step8(0x10 | (k as bv32))
  {
    match k
    case 0x0 => 0x1DB71064 case 0x1 => 0x6AB020F2 case 0x2 => 0xF3B97148 case 0x3 => 0x84BE41DE
    case 0x4 => 0x1ADAD47D case 0x5 => 0x6DDDE4EB case 0x6 => 0xF4D4B551 case 0x7 => 0x83D385C7
    case 0x8 => 0x136C9856 case 0x9 => 0x646BA8C0 case 0xA => 0xFD62F97A case 0xB => 0x8A65C9EC
    case 0xC => 0x14015C4F case 0xD => 0x63066CD9 case 0xE => 0xFA0F3D63 case _ => 0x8D080DF5
  }

  function Row2(k: bv8): (r: bv32)
    requires k < 16
    ensures r == Step8(0x20 | (k as bv32))
  {
    match k
    case 0x0 => 0x3B6E20C8 case 0x1 => 0x4C69105E case 0x2 => 0xD56041E4 case 0x3 => 0xA2677172
    case 0x4 => 0x3C03E4D1 case 0x5 => 0x4B04D447 case 0x6 => 0xD20D85FD case 0x7 => 0xA50AB56B
    case 0x8 => 0x35B5A8FA case 0x9 => 0x42B2986C case 0xA => 0xDBBBC9D6 case 0xB => 0xACBCF940
    case 0xC => 0x32D86CE3 case 0xD => 0x45DF5C75 case 0xE => 0xDCD60DCF case _ => 0xABD13D59
  }

  function Row3(k: bv8): (r: bv32)
    requires k < 16
    ensures r == Step8(0x30 | (k as bv32))
  {
    match k
    case 0x0 => 0x26D930AC case 0x1 => 0x51DE003A case 0x2 => 0xC8D75180 case 0x3 => 0xBFD06116
    case 0x4 => 0x21B4F4B5 case 0x5 => 0x56B3C423 case 0x6 => 0xCFBA9599 case 0x7 => 0xB8BDA50F
    case 0x8 => 0x2802B89E case 0x9 => 0x5F058808 case 0xA => 0xC60CD9B2 case 0xB => 0xB10BE924
    case 0xC => 0x2F6F7C87 case 0xD => 0x58684C11 case 0xE => 0xC1611DAB case _ => 0xB6662D3D
  }

  function Row4(k: bv8): (r: bv32)
    requires k < 16
    ensures r == Step8(0x40 | (k as bv32))
  {
    match k
    case 0x0 => 0x76DC4190 case 0x1 => 0x01DB7106 case 0x2 => 0x98D220BC case 0x3 => 0xEFD5102A
    case 0x4 => 0x71B18589 case 0x5 => 0x06B6B51F case 0x6 => 0x9FBFE4A5 case 0x7 => 0xE8B8D433
    case 0x8 => 0x7807C9A2 case 0x9 => 0x0F00F934 case 0xA => 0x9609A88E case 0xB => 0xE10E9818
    case 0xC => 0x7F6A0DBB case 0xD => 0x086D3D2D case 0xE => 0x91646C97 case _ => 0xE6635C01
  }

  function Row5(k: bv8): (r: bv32)
    requires k < 16
    ensures r == Step8(0x50 | (k as bv32))
  {
    match k
    case 0x0 => 0x6B6B51F4 case 0x1 => 0x1C6C6162 case 0x2 => 0x856530D8 case 0x3 => 0xF262004E
    case 0x4 => 0x6C0695ED case 0x5 => 0x1B01A57B case 0x6 => 0x8208F4C1 case 0x7 => 0xF50FC457
    case 0x8 => 0x65B0D9C6 case 0x9 => 0x12B7E950 case 0xA => 0x8BBEB8EA case 0xB => 0xFCB9887C
    case 0xC => 0x62DD1DDF case 0xD => 0x15DA2D49 case 0xE => 0x8CD37CF3 case _ => 0xFBD44C65
  }

  function Row6(k: bv8): (r: bv32)
    requires k < 16
    ensures r == Step8(0x60 | (k as bv32))
  {
    match k
    case 0x0 => 0x4DB26158 case 0x1 => 0x3AB551CE case 0x2 => 0xA3BC0074 case 0x3 => 0xD4BB30E2
    case 0x4 => 0x4ADFA541 case 0x5 => 0x3DD895D7 case 0x6 => 0xA4D1C46D case 0x7 => 0xD3D6F4FB
    case 0x8 => 0x4369E96A case 0x9 => 0x346ED9FC case 0xA => 0xAD678846 case 0xB => 0xDA60B8D0
    case 0xC => 0x44042D73 case 0xD => 0x33031DE5 case 0xE => 0xAA0A4C5F case _ => 0xDD0D7CC9
  }

  function Row7(k: bv8): (r: bv32)
    requires k < 16
    ensures r == Step8(0x70 | (k as bv32))
  {
    match k
    case 0x0 => 0x5005713C case 0x1 => 0x270241AA case 0x2 => 0xBE0B1010 case 0x3 => 0xC90C2086
    case 0x4 => 0x5768B525 case 0x5 => 0x206F85B3 case 0x6 => 0xB966D409 case 0x7 => 0xCE61E49F
    case 0x8 => 0x5EDEF90E case 0x9 => 0x29D9C998 case 0xA => 0xB0D09822 case 0xB => 0xC7D7A8B4
    case 0xC => 0x59B33D17 case 0xD => 0x2EB40D81 case 0xE => 0xB7BD5C3B case _ => 0xC0BA6CAD
  }

  function Row8(k: bv8): (r: bv32)
    requires k < 16
    ensures r == Step8(0x80 | (k as bv32))
  {
    match k
    case 0x0 => 0xEDB88320 case 0x1 => 0x9ABFB3B6 case 0x2 => 0x03B6E20C case 0x3 => 0x74B1D29A
    case 0x4 => 0xEAD54739 case 0x5 => 0x9DD277AF case 0x6 => 0x04DB2615 case 0x7 => 0x73DC1683
    case 0x8 => 0xE3630B12 case 0x9 => 0x94643B84 case 0xA => 0x0D6D6A3E case 0xB => 0x7A6A5AA8
    case 0xC => 0xE40ECF0B case 0xD => 0x9309FF9D case 0xE => 0x0A00AE27 case _ => 0x7D079EB1
  }

  function Row9(k: bv8): (r: bv32)
    requires k < 16
    ensures r == Step8(0x90 | (k as bv32))
  {
    match k
    case 0x0 => 0xF00F9344 case 0x1 => 0x8708A3D2 case 0x2 => 0x1E01F268 case 0x3 => 0x6906C2FE
    case 0x4 => 0xF762575D case 0x5 => 0x806567CB case 0x6 => 0x196C3671 case 0x7 => 0x6E6B06E7
    case 0x8 => 0xFED41B76 case 0x9 => 0x89D32BE0 case 0xA => 0x10DA7A5A case 0xB => 0x67DD4ACC
    case 0xC => 0xF9B9DF6F case 0xD => 0x8EBEEFF9 case 0xE => 0x17B7BE43 case _ => 0x60B08ED5
  }

  function RowA(k: bv8): (r: bv32)
    requires k < 16
    ensures r == Step8(0xA0 | (k as bv32))
  {
    match k
    case 0x0 => 0xD6D6A3E8 case 0x1 => 0xA1D1937E case 0x2 => 0x38D8C2C4 case 0x3 => 0x4FDFF252
    case 0x4 => 0xD1BB67F1 case 0x5 => 0xA6BC5767 case 0x6 => 0x3FB506DD case 0x7 => 0x48B2364B
    case 0x8 => 0xD80D2BDA case 0x9 => 0xAF0A1B4C case 0xA => 0x36034AF6 case 0xB => 0x41047A60
    case 0xC => 0xDF60EFC3 case 0xD => 0xA867DF55 case 0xE => 0x316E8EEF case _ => 0x4669BE79
  }

  function RowB(k: bv8): (r: bv32)
    requires k < 16
    ensures r == Step8(0xB0 | (k as bv32))
  {
    match k
    case 0x0 => 0xCB61B38C case 0x1 => 0xBC66831A case 0x2 => 0x256FD2A0 case 0x3 => 0x5268E236
    case 0x4 => 0xCC0C7795 case 0x5 => 0xBB0B4703 case 0x6 => 0x220216B9 case 0x7 => 0x5505262F
    case 0x8 => 0xC5BA3BBE case 0x9 => 0xB2BD0B28 case 0xA => 0x2BB45A92 case 0xB => 0x5CB36A04
    case 0xC => 0xC2D7FFA7 case 0xD => 0xB5D0CF31 case 0xE => 0x2CD99E8B case _ => 0x5BDEAE1D
  }

  function RowC(k: bv8): (r: bv32)
    requires k < 16
    ensures r == Step8(0xC0 | (k as bv32))
  {
    match k
    case 0x0 => 0x9B64C2B0 case 0x1 => 0xEC63F226 case 0x2 => 0x756AA39C case 0x3 => 0x026D930A
    case 0x4 => 0x9C0906A9 case 0x5 => 0xEB0E363F case 0x6 => 0x72076785 case 0x7 => 0x05005713
    case 0x8 => 0x95BF4A82 case 0x9 => 0xE2B87A14 case 0xA => 0x7BB12BAE case 0xB => 0x0CB61B38
    case 0xC => 0x92D28E9B case 0xD => 0xE5D5BE0D case 0xE => 0x7CDCEFB7 case _ => 0x0BDBDF21
  }

  function RowD(k: bv8): (r: bv32)
    requires k < 16
    ensures r == Step8(0xD0 | (k as bv32))
  {
    match k
    case 0x0 => 0x86D3D2D4 case 0x1 => 0xF1D4E242 case 0x2 => 0x68DDB3F8 case 0x3 => 0x1FDA836E
    case 0x4 => 0x81BE16CD case 0x5 => 0xF6B9265B case 0x6 => 0x6FB077E1 case 0x7 => 0x18B74777
    case 0x8 => 0x88085AE6 case 0x9 => 0xFF0F6A70 case 0xA => 0x66063BCA case 0xB => 0x11010B5C
    case 0xC => 0x8F659EFF case 0xD => 0xF862AE69 case 0xE => 0x616BFFD3 case _ => 0x166CCF45
  }

  function RowE(k: bv8): (r: bv32)
    requires k < 16
    ensures r == Step8(0xE0 | (k as bv32))
  {
    match k
    case 0x0 => 0xA00AE278 case 0x1 => 0xD70DD2EE case 0x2 => 0x4E048354 case 0x3 => 0x3903B3C2
    case 0x4 => 0xA7672661 case 0x5 => 0xD06016F7 case 0x6 => 0x4969474D case 0x7 => 0x3E6E77DB
    case 0x8 => 0xAED16A4A case 0x9 => 0xD9D65ADC case 0xA => 0x40DF0B66 case 0xB => 0x37D83BF0
    case 0xC => 0xA9BCAE53 case 0xD => 0xDEBB9EC5 case 0xE => 0x47B2CF7F case _ => 0x30B5FFE9
  }

  function RowF(k: bv8): (r: bv32)
    requires k < 16
    ensures r == Step8(0xF0 | (k as bv32))
  {
    match k
    case 0x0 => 0xBDBDF21C case 0x1 => 0xCABAC28A case 0x2 => 0x53B39330 case 0x3 => 0x24B4A3A6
    case 0x4 => 0xBAD03605 case 0x5 => 0xCDD70693 case 0x6 => 0x54DE5729 case 0x7 => 0x23D967BF
    case 0x8 => 0xB3667A2E case 0x9 => 0xC4614AB8 case 0xA => 0x5D681B02 case 0xB => 0x2A6F2B94
    case 0xC => 0xB40BBE37 case 0xD => 0xC30C8EA1 case 0xE => 0x5A05DF1B case _ => 0x2D02EF8D
  }

  function CrcTable(k: bv8): (r: bv32)
    ensures r == Step8(k as bv32)
  {
    var low := k & 0xF;
    match k >> 4
    case 0x0 => Row0(low) case 0x1 => Row1(low) case 0x2 => Row2(low) case 0x3 => Row3(low)
    case 0x4 => Row4(low) case 0x5 => Row5(low) case 0x6 => Row6(low) case 0x7 => Row7(low)
    case 0x8 => Row8(low) case 0x9 => Row9(low) case 0xA => RowA(low) case 0xB => RowB(low)
    case 0xC => RowC(low) case 0xD => RowD(low) case 0xE => RowE(low) case _ => RowF(low)
  }

  lemma HalfXor(a: bv32, b: bv32)
    ensures Half(Xor(a, b)) == Xor(Half(a), Half(b))
  {
    assert (a ^ b) >> 1 == (a >> 1) ^ (b >> 1);
  }

  lemma OddXor(a: bv32, b: bv32)
    ensures Odd(Xor(a, b)) <==> Odd(a) != Odd(b)
  {
    assert (a ^ b) & 1 == (a & 1) ^ (b & 1);
  }

  lemma XorMoves(p: bv32, x: bv32, y: bv32)
    ensures Xor(Xor(p, x), y) == Xor(p, Xor(x, y))
  {
    assert (p ^ x) ^ y == p ^ (x ^ y);
  }

  lemma XorMovesBack(p: bv32, x: bv32, y: bv32)
    ensures Xor(x, Xor(p, y)) == Xor(p, Xor(x, y))
  {
    assert x ^ (p ^ y) == p ^ (x ^ y);
  }

  lemma XorCancels(p: bv32, x: bv32, y: bv32)
    ensures Xor(Xor(p, x), Xor(p, y)) == Xor(x, y)
  {
    assert (p ^ x) ^ (p ^ y) == x ^ y;
  }

  /** The division is linear over exclusive or. */
  lemma StepIsLinear(a: bv32, b: bv32)
    ensures Step(Xor(a, b)) == Xor(Step(a), Step(b))
  {
    hide Xor, Half, Odd;
    HalfXor(a, b);
    OddXor(a, b);
    XorMoves(POLYNOMIAL, Half(a), Half(b));
    XorMovesBack(POLYNOMIAL, Half(a), Half(b));
    XorCancels(POLYNOMIAL, Half(a), Half(b));
  }

  lemma Step8IsLinear(a: bv32, b: bv32)
    ensures Step8(Xor(a, b)) == Xor(Step8(a), Step8(b))
  {
    hide Step, Xor;
    StepIsLinear(a, b);
    var a1, b1 := Step(a), Step(b);
    StepIsLinear(a1, b1);
    var a2, b2 := Step(a1), Step(b1);
    StepIsLinear(a2, b2);
    var a3, b3 := Step(a2), Step(b2);
    StepIsLinear(a3, b3);
    var a4, b4 := Step(a3), Step(b3);
    StepIsLinear(a4, b4);
    var a5, b5 := Step(a4), Step(b4);
    StepIsLinear(a5, b5);
    var a6, b6 := Step(a5), Step(b5);
    StepIsLinear(a6, b6);
    StepIsLinear(Step(a6), Step(b6));
  }

  /** Dividing the upper 24 bits only moves them, since no one falls off. */
  lemma Step8Shifts(c: bv32)
    ensures Step8(c & 0xFFFFFF00) == c >> 8
  {
  }

  lemma SplitLow(c: bv32)
    ensures c == Xor(c & 0xFFFFFF00, Low(c) as bv32)
  {
  }

  /** So one table lookup on the low byte does eight steps of the division. */
  lemma TableStep(c: bv32)
    ensures Xor(c >> 8, CrcTable(Low(c))) == Step8(c)
  {
    hide Step8, CrcTable, Xor, Low;
    SplitLow(c);
    Step8IsLinear(c & 0xFFFFFF00, Low(c) as bv32);
    Step8Shifts(c);
  }

  // ---------- a byte entered at once is its eight bits entered one by one ----------

  lemma {:induction false} FeedConcat(c: bv32, a: seq<bool>, b: seq<bool>)
    ensures Feed(c, a + b) == Feed(Feed(c, a), b)
    decreases |a|
  {
    hide Step, Xor, Bit;
    if a == [] {
      assert a + b == b;
    } else {
      FeedConcat(Step(Xor(c, Bit(a[0]))), a[1..], b);
      assert (a + b)[1..] == a[1..] + b;
    }
  }

  /** The upper bits of a word can enter after the step as well, one place further down. */
  lemma UpperBitsWait(c: bv32, b: bv32)
    ensures Step(Xor(c, b)) == Xor(Step(Xor(c, b & 1)), Half(b))
  {
    hide Step, Xor, Half;
    SplitFirst(b);
    XorMoves(c, b & 1, b & 0xFFFFFFFE);
    StepIsLinear(Xor(c, b & 1), b & 0xFFFFFFFE);
    StepShifts(b);
  }

  lemma SplitFirst(b: bv32)
    ensures Xor(b & 1, b & 0xFFFFFFFE) == b
  {
  }

  lemma StepShifts(b: bv32)
    ensures Step(b & 0xFFFFFFFE) == Half(b)
  {
  }

  function Steps(c: bv32, k: nat): bv32
    decreases k
  {
    if k == 0 then c else Steps(Step(c), k - 1)
  }

  lemma EightSteps(c: bv32)
    ensures Steps(c, 8) == Step8(c)
  {
    hide Step;
    var c2 := Step(Step(c));
    var c4 := Step(Step(c2));
    var c6 := Step(Step(c4));
    assert Steps(c, 8) == Steps(c2, 6) == Steps(c4, 4) == Steps(c6, 2) == Step(Step(c6));
  }

  lemma LastBitOfWord(x: bv8)
    ensures (x & 1 == 1) <==> (x as int % 2 == 1)
    ensures (x >> 1) as int == x as int / 2
  {
  }

  lemma WideParts(x: bv8)
    ensures (x as bv32) & 1 == (x & 1) as bv32
    ensures (x as bv32) >> 1 == (x >> 1) as bv32
    ensures x & 1 == 0 || x & 1 == 1
  {
  }

  lemma BackAndForth(x: bv8, v: Bits.byte)
    requires x as int == v
    ensures x == v as bv8
  {
  }

  lemma ForthAndBack(v: Bits.byte)
    ensures (v as bv8) as int == v
  {
    assert v % 256 == v;
  }

  lemma LastOfWide(v: Bits.byte)
    ensures Wide(v) & 1 == Bit(v % 2 == 1)
  {
    ForthAndBack(v);
    LastBitOfWord(v as bv8);
    WideParts(v as bv8);
  }

  lemma HalfOfWide(v: Bits.byte)
    ensures Half(Wide(v)) == Wide(v / 2)
  {
    var x := v as bv8;
    ForthAndBack(v);
    LastBitOfWord(x);
    WideParts(x);
    BackAndForth(x >> 1, v / 2);
  }

  lemma {:induction false} BitsEnterInTurn(c: bv32, v: nat, k: nat)
    requires v < Bits.Pow2(k) && k <= 8 && v < 256
    ensures Feed(c, Bits.LowBits(v, k)) == Steps(Xor(c, Wide(v)), k)
    decreases k
  {
    hide Step, Xor, Bit, Wide, Half;
    if k == 0 {
      NothingEnters(c);
    } else {
      LastOfWide(v);
      HalfOfWide(v);
      UpperBitsWait(c, Wide(v));
      BitsEnterInTurn(Step(Xor(c, Bit(v % 2 == 1))), v / 2, k - 1);
      assert Bits.LowBits(v, k)[1..] == Bits.LowBits(v / 2, k - 1);
    }
  }

  lemma NothingEnters(c: bv32)
    ensures Xor(c, Wide(0)) == c
  {
  }

  /** One more byte of the message: it is added to the low end of the register, and eight steps follow. */
  lemma RegisterStep(m: seq<Bits.byte>, b: Bits.byte)
    ensures Register(m + [b]) == Step8(Xor(Register(m), Wide(b)))
  {
    hide Step, Step8, Xor, Wide, Bits.LowBits, Bits.ByteBits, Bits.Pow2, Feed;
    Bits.ByteBitsConcat(m, [b]);
    Bits.ByteBitsSingleton(b);
    FeedConcat(0xFFFFFFFF, Bits.ByteBits(m), Bits.LowBits(b, 8));
    Bits.SmallPowers();
    BitsEnterInTurn(Register(m), b, 8);
    EightSteps(Xor(Register(m), Wide(b)));
  }

  // ---------- the loop ----------

  lemma ByteEnters(crc: bv32, b: Bits.byte)
    ensures Xor(crc, Wide(b)) >> 8 == crc >> 8
    ensures Low(Xor(crc, Wide(b))) == (b as bv8) ^ ((crc & 0xFF) as bv8)
  {
    BitsEnter(crc, b as bv8);
  }

  lemma BitsEnter(crc: bv32, b: bv8)
    ensures (crc ^ (b as bv32)) >> 8 == crc >> 8
    ensures ((crc ^ (b as bv32)) & 0xFF) as bv8 == b ^ ((crc & 0xFF) as bv8)
  {
  }

  /** The loop's step. */
  function Lookup(crc: bv32, b: Bits.byte): bv32 {
    (crc >> 8) ^ CrcTable((b as bv8) ^ ((crc & 0xFF) as bv8))
  }

  lemma LookupStep(crc: bv32, b: Bits.byte)
    ensures Lookup(crc, b) == Step8(Xor(crc, Wide(b)))
  {
    hide CrcTable, Step8, Wide, Low;
    ByteEnters(crc, b);
    TableStep(Xor(crc, Wide(b)));
  }

  lemma NextRegister(m: seq<Bits.byte>, b: Bits.byte)
    ensures Register(m + [b]) == Lookup(Register(m), b)
  {
    hide Register, Lookup, Step8, Xor, Wide;
    RegisterStep(m, b);
    LookupStep(Register(m), b);
  }

  lemma EmptyRegister()
    ensures Register([]) == 0xFFFFFFFF
  {
  }

  lemma Lookups(crc: bv32, b: bv8)
    ensures Lookup(crc, b as int) == (crc >> 8) ^ CrcTable(b ^ ((crc & 0xFF) as bv8))
  {
    hide CrcTable;
    assert (b as int) as bv8 == b;
  }

  /** The checksum of the type of the last chunk of a PNG file. */
  lemma EndValue()
    ensures Crc32([73, 69, 78, 68]) == 0xAE426082
  {
    hide Register, Lookup;
    var m: seq<Bits.byte> := [73, 69, 78, 68];
    EmptyRegister();
    NextRegister([], 73);
    NextRegister([73], 69);
    NextRegister([73, 69], 78);
    NextRegister([73, 69, 78], 68);
    assert [] + [73] == [73] && [73] + [69] == [73, 69] && [73, 69] + [78] == [73, 69, 78] && [73, 69, 78] + [68] == m;
    Lookups(0xFFFFFFFF, 73);
    Lookups(0x22FDE946, 69);
    Lookups(0x992BAC53, 78);
    Lookups(0x639F4775, 68);
  }

  /** The table-driven loop computes the checksum. */
  method ComputeCrc32(buffer: seq<Bits.byte>) returns (r: bv32)
    ensures r == Crc32(buffer)
  {
    hide CrcTable, Step8, Xor, Wide, Lookup, Register;
    EmptyRegister();
    var crc: bv32 := 0xFFFFFFFF;
    for i := 0 to |buffer|
      invariant crc == Register(buffer[..i])
    {
      assert buffer[..i + 1] == buffer[..i] + [buffer[i]];
      RegisterStep(buffer[..i], buffer[i]);
      LookupStep(crc, buffer[i]);
      crc := Lookup(crc, buffer[i]);
    }
    assert buffer[..|buffer|] == buffer;
    r := !crc;
  }
}
