/**
 The four Huffman tables of the JPEG writer, twice over: as the code words it writes with,
 and as the counts and values it puts into the file for the decoder (ITU-T T.81, Annex C and B.2.4.2).
 */
module JpegTables {
  import opened Bits

  datatype Table = LumDc | LumAc | ChromDc | ChromAc

  datatype CodeWord = CodeWord(code: nat, len: nat)

  // ---------- the tables in the file ----------

  /** How many code words have the given length, 1 to 16. */
  function Count(t: Table, len: nat): nat {
    match t
    case LumDc => LumDcCount(len)
    case LumAc => LumAcCount(len)
    case ChromDc => ChromDcCount(len)
    case ChromAc => ChromAcCount(len)
  }

  function LumDcCount(len: nat): nat {
    match len
    case 0 => 0 case 1 => 0 case 2 => 1 case 3 => 5 case 4 => 1 case 5 => 1 case 6 => 1 case 7 => 1 case 8 => 1
    case 9 => 1 case 10 => 0 case 11 => 0 case 12 => 0 case 13 => 0 case 14 => 0 case 15 => 0 case 16 => 0
    case _ => 0
  }

  function LumAcCount(len: nat): nat {
    match len
    case 0 => 0 case 1 => 0 case 2 => 2 case 3 => 1 case 4 => 3 case 5 => 3 case 6 => 2 case 7 => 4 case 8 => 3
    case 9 => 5 case 10 => 5 case 11 => 4 case 12 => 4 case 13 => 0 case 14 => 0 case 15 => 1 case 16 => 125
    case _ => 0
  }

  function ChromDcCount(len: nat): nat {
    match len
    case 0 => 0 case 1 => 0 case 2 => 3 case 3 => 1 case 4 => 1 case 5 => 1 case 6 => 1 case 7 => 1 case 8 => 1
    case 9 => 1 case 10 => 1 case 11 => 1 case 12 => 0 case 13 => 0 case 14 => 0 case 15 => 0 case 16 => 0
    case _ => 0
  }

  function ChromAcCount(len: nat): nat {
    match len
    case 0 => 0 case 1 => 0 case 2 => 2 case 3 => 1 case 4 => 2 case 5 => 4 case 6 => 4 case 7 => 3 case 8 => 4
    case 9 => 7 case 10 => 5 case 11 => 4 case 12 => 4 case 13 => 0 case 14 => 1 case 15 => 2 case 16 => 119
    case _ => 0
  }

  /** The symbols, in the order of their code words. */
  function Value(t: Table, k: nat): byte {
    match t
    case LumDc => LumDcValue(k)
    case LumAc => LumAcValue(k)
    case ChromDc => ChromDcValue(k)
    case ChromAc => ChromAcValue(k)
  }

  function LumDcValue(k: nat): byte {
    match k
    case 0 => 0 case 1 => 1 case 2 => 2 case 3 => 3 case 4 => 4 case 5 => 5 case 6 => 6 case 7 => 7 case 8 => 8
    case 9 => 9 case 10 => 10 case 11 => 11 case _ => 0
  }

  function LumAcValue(k: nat): byte {
    match k / 16
    case 0 => LumAcValue0(k % 16) case 1 => LumAcValue1(k % 16) case 2 => LumAcValue2(k % 16)
    case 3 => LumAcValue3(k % 16) case 4 => LumAcValue4(k % 16) case 5 => LumAcValue5(k % 16)
    case 6 => LumAcValue6(k % 16) case 7 => LumAcValue7(k % 16) case 8 => LumAcValue8(k % 16)
    case 9 => LumAcValue9(k % 16) case 10 => LumAcValue10(k % 16) case _ => 0
  }

  function LumAcValue0(i: nat): byte {
    match i
    case 0 => 0x01 case 1 => 0x02 case 2 => 0x03 case 3 => 0x00 case 4 => 0x04 case 5 => 0x11 case 6 => 0x05
    case 7 => 0x12 case 8 => 0x21 case 9 => 0x31 case 10 => 0x41 case 11 => 0x06 case 12 => 0x13 case 13 => 0x51
    case 14 => 0x61 case _ => 0x07
  }

  function LumAcValue1(i: nat): byte {
    match i
    case 0 => 0x22 case 1 => 0x71 case 2 => 0x14 case 3 => 0x32 case 4 => 0x81 case 5 => 0x91 case 6 => 0xA1
    case 7 => 0x08 case 8 => 0x23 case 9 => 0x42 case 10 => 0xB1 case 11 => 0xC1 case 12 => 0x15 case 13 => 0x52
    case 14 => 0xD1 case _ => 0xF0
  }

  function LumAcValue2(i: nat): byte {
    match i
    case 0 => 0x24 case 1 => 0x33 case 2 => 0x62 case 3 => 0x72 case 4 => 0x82 case 5 => 0x09 case 6 => 0x0A
    case 7 => 0x16 case 8 => 0x17 case 9 => 0x18 case 10 => 0x19 case 11 => 0x1A case 12 => 0x25 case 13 => 0x26
    case 14 => 0x27 case _ => 0x28
  }

  function LumAcValue3(i: nat): byte {
    match i
    case 0 => 0x29 case 1 => 0x2A case 2 => 0x34 case 3 => 0x35 case 4 => 0x36 case 5 => 0x37 case 6 => 0x38
    case 7 => 0x39 case 8 => 0x3A case 9 => 0x43 case 10 => 0x44 case 11 => 0x45 case 12 => 0x46 case 13 => 0x47
    case 14 => 0x48 case _ => 0x49
  }

  function LumAcValue4(i: nat): byte {
    match i
    case 0 => 0x4A case 1 => 0x53 case 2 => 0x54 case 3 => 0x55 case 4 => 0x56 case 5 => 0x57 case 6 => 0x58
    case 7 => 0x59 case 8 => 0x5A case 9 => 0x63 case 10 => 0x64 case 11 => 0x65 case 12 => 0x66 case 13 => 0x67
    case 14 => 0x68 case _ => 0x69
  }

  function LumAcValue5(i: nat): byte {
    match i
    case 0 => 0x6A case 1 => 0x73 case 2 => 0x74 case 3 => 0x75 case 4 => 0x76 case 5 => 0x77 case 6 => 0x78
    case 7 => 0x79 case 8 => 0x7A case 9 => 0x83 case 10 => 0x84 case 11 => 0x85 case 12 => 0x86 case 13 => 0x87
    case 14 => 0x88 case _ => 0x89
  }

  function LumAcValue6(i: nat): byte {
    match i
    case 0 => 0x8A case 1 => 0x92 case 2 => 0x93 case 3 => 0x94 case 4 => 0x95 case 5 => 0x96 case 6 => 0x97
    case 7 => 0x98 case 8 => 0x99 case 9 => 0x9A case 10 => 0xA2 case 11 => 0xA3 case 12 => 0xA4 case 13 => 0xA5
    case 14 => 0xA6 case _ => 0xA7
  }

  function LumAcValue7(i: nat): byte {
    match i
    case 0 => 0xA8 case 1 => 0xA9 case 2 => 0xAA case 3 => 0xB2 case 4 => 0xB3 case 5 => 0xB4 case 6 => 0xB5
    case 7 => 0xB6 case 8 => 0xB7 case 9 => 0xB8 case 10 => 0xB9 case 11 => 0xBA case 12 => 0xC2 case 13 => 0xC3
    case 14 => 0xC4 case _ => 0xC5
  }

  function LumAcValue8(i: nat): byte {
    match i
    case 0 => 0xC6 case 1 => 0xC7 case 2 => 0xC8 case 3 => 0xC9 case 4 => 0xCA case 5 => 0xD2 case 6 => 0xD3
    case 7 => 0xD4 case 8 => 0xD5 case 9 => 0xD6 case 10 => 0xD7 case 11 => 0xD8 case 12 => 0xD9 case 13 => 0xDA
    case 14 => 0xE1 case _ => 0xE2
  }

  function LumAcValue9(i: nat): byte {
    match i
    case 0 => 0xE3 case 1 => 0xE4 case 2 => 0xE5 case 3 => 0xE6 case 4 => 0xE7 case 5 => 0xE8 case 6 => 0xE9
    case 7 => 0xEA case 8 => 0xF1 case 9 => 0xF2 case 10 => 0xF3 case 11 => 0xF4 case 12 => 0xF5 case 13 => 0xF6
    case 14 => 0xF7 case _ => 0xF8
  }

  function LumAcValue10(i: nat): byte {
    match i
    case 0 => 0xF9 case 1 => 0xFA case _ => 0
  }

  function ChromDcValue(k: nat): byte {
    match k
    case 0 => 0 case 1 => 1 case 2 => 2 case 3 => 3 case 4 => 4 case 5 => 5 case 6 => 6 case 7 => 7 case 8 => 8
    case 9 => 9 case 10 => 10 case 11 => 11 case _ => 0
  }

  function ChromAcValue(k: nat): byte {
    match k / 16
    case 0 => ChromAcValue0(k % 16) case 1 => ChromAcValue1(k % 16) case 2 => ChromAcValue2(k % 16)
    case 3 => ChromAcValue3(k % 16) case 4 => ChromAcValue4(k % 16) case 5 => ChromAcValue5(k % 16)
    case 6 => ChromAcValue6(k % 16) case 7 => ChromAcValue7(k % 16) case 8 => ChromAcValue8(k % 16)
    case 9 => ChromAcValue9(k % 16) case 10 => ChromAcValue10(k % 16) case _ => 0
  }

  function ChromAcValue0(i: nat): byte {
    match i
    case 0 => 0x00 case 1 => 0x01 case 2 => 0x02 case 3 => 0x03 case 4 => 0x11 case 5 => 0x04 case 6 => 0x05
    case 7 => 0x21 case 8 => 0x31 case 9 => 0x06 case 10 => 0x12 case 11 => 0x41 case 12 => 0x51 case 13 => 0x07
    case 14 => 0x61 case _ => 0x71
  }

  function ChromAcValue1(i: nat): byte {
    match i
    case 0 => 0x13 case 1 => 0x22 case 2 => 0x32 case 3 => 0x81 case 4 => 0x08 case 5 => 0x14 case 6 => 0x42
    case 7 => 0x91 case 8 => 0xA1 case 9 => 0xB1 case 10 => 0xC1 case 11 => 0x09 case 12 => 0x23 case 13 => 0x33
    case 14 => 0x52 case _ => 0xF0
  }

  function ChromAcValue2(i: nat): byte {
    match i
    case 0 => 0x15 case 1 => 0x62 case 2 => 0x72 case 3 => 0xD1 case 4 => 0x0A case 5 => 0x16 case 6 => 0x24
    case 7 => 0x34 case 8 => 0xE1 case 9 => 0x25 case 10 => 0xF1 case 11 => 0x17 case 12 => 0x18 case 13 => 0x19
    case 14 => 0x1A case _ => 0x26
  }

  function ChromAcValue3(i: nat): byte {
    match i
    case 0 => 0x27 case 1 => 0x28 case 2 => 0x29 case 3 => 0x2A case 4 => 0x35 case 5 => 0x36 case 6 => 0x37
    case 7 => 0x38 case 8 => 0x39 case 9 => 0x3A case 10 => 0x43 case 11 => 0x44 case 12 => 0x45 case 13 => 0x46
    case 14 => 0x47 case _ => 0x48
  }

  function ChromAcValue4(i: nat): byte {
    match i
    case 0 => 0x49 case 1 => 0x4A case 2 => 0x53 case 3 => 0x54 case 4 => 0x55 case 5 => 0x56 case 6 => 0x57
    case 7 => 0x58 case 8 => 0x59 case 9 => 0x5A case 10 => 0x63 case 11 => 0x64 case 12 => 0x65 case 13 => 0x66
    case 14 => 0x67 case _ => 0x68
  }

  function ChromAcValue5(i: nat): byte {
    match i
    case 0 => 0x69 case 1 => 0x6A case 2 => 0x73 case 3 => 0x74 case 4 => 0x75 case 5 => 0x76 case 6 => 0x77
    case 7 => 0x78 case 8 => 0x79 case 9 => 0x7A case 10 => 0x82 case 11 => 0x83 case 12 => 0x84 case 13 => 0x85
    case 14 => 0x86 case _ => 0x87
  }

  function ChromAcValue6(i: nat): byte {
    match i
    case 0 => 0x88 case 1 => 0x89 case 2 => 0x8A case 3 => 0x92 case 4 => 0x93 case 5 => 0x94 case 6 => 0x95
    case 7 => 0x96 case 8 => 0x97 case 9 => 0x98 case 10 => 0x99 case 11 => 0x9A case 12 => 0xA2 case 13 => 0xA3
    case 14 => 0xA4 case _ => 0xA5
  }

  function ChromAcValue7(i: nat): byte {
    match i
    case 0 => 0xA6 case 1 => 0xA7 case 2 => 0xA8 case 3 => 0xA9 case 4 => 0xAA case 5 => 0xB2 case 6 => 0xB3
    case 7 => 0xB4 case 8 => 0xB5 case 9 => 0xB6 case 10 => 0xB7 case 11 => 0xB8 case 12 => 0xB9 case 13 => 0xBA
    case 14 => 0xC2 case _ => 0xC3
  }

  function ChromAcValue8(i: nat): byte {
    match i
    case 0 => 0xC4 case 1 => 0xC5 case 2 => 0xC6 case 3 => 0xC7 case 4 => 0xC8 case 5 => 0xC9 case 6 => 0xCA
    case 7 => 0xD2 case 8 => 0xD3 case 9 => 0xD4 case 10 => 0xD5 case 11 => 0xD6 case 12 => 0xD7 case 13 => 0xD8
    case 14 => 0xD9 case _ => 0xDA
  }

  function ChromAcValue9(i: nat): byte {
    match i
    case 0 => 0xE2 case 1 => 0xE3 case 2 => 0xE4 case 3 => 0xE5 case 4 => 0xE6 case 5 => 0xE7 case 6 => 0xE8
    case 7 => 0xE9 case 8 => 0xEA case 9 => 0xF2 case 10 => 0xF3 case 11 => 0xF4 case 12 => 0xF5 case 13 => 0xF6
    case 14 => 0xF7 case _ => 0xF8
  }

  function ChromAcValue10(i: nat): byte {
    match i
    case 0 => 0xF9 case 1 => 0xFA case _ => 0
  }

  // ---------- code words from counts (Annex C) ----------

  /** The smallest code word of a length. */
  function MinCode(t: Table, len: nat): nat {
    if len <= 1 then 0 else 2 * (MinCode(t, len - 1) + Count(t, len - 1))
  }

  /** How many code words are shorter. */
  function ValPtr(t: Table, len: nat): nat {
    if len <= 1 then 0 else ValPtr(t, len - 1) + Count(t, len - 1)
  }

  /** w is the code word that Annex C assigns to symbol s, unless the table has no word for s. */
  predicate Assigned(t: Table, s: nat, w: CodeWord) {
    w.len == 0 ||
    (1 <= w.len <= 16 && MinCode(t, w.len) <= w.code < MinCode(t, w.len) + Count(t, w.len) &&
     Value(t, ValPtr(t, w.len) + w.code - MinCode(t, w.len)) == s)
  }

  lemma LumDcStarts()
    ensures Count(LumDc, 1) == 0 && Count(LumDc, 2) == 1 && Count(LumDc, 3) == 5 && Count(LumDc, 4) == 1
    ensures Count(LumDc, 5) == 1 && Count(LumDc, 6) == 1 && Count(LumDc, 7) == 1 && Count(LumDc, 8) == 1
    ensures Count(LumDc, 9) == 1 && Count(LumDc, 10) == 0 && Count(LumDc, 11) == 0 && Count(LumDc, 12) == 0
    ensures Count(LumDc, 13) == 0 && Count(LumDc, 14) == 0 && Count(LumDc, 15) == 0 && Count(LumDc, 16) == 0
    ensures MinCode(LumDc, 1) == 0 && MinCode(LumDc, 2) == 0 && MinCode(LumDc, 3) == 2 && MinCode(LumDc, 4) == 14
    ensures MinCode(LumDc, 5) == 30 && MinCode(LumDc, 6) == 62 && MinCode(LumDc, 7) == 126 && MinCode(LumDc, 8) == 254
    ensures MinCode(LumDc, 9) == 510 && MinCode(LumDc, 10) == 1022
    ensures MinCode(LumDc, 11) == 2044 && MinCode(LumDc, 12) == 4088
    ensures MinCode(LumDc, 13) == 8176 && MinCode(LumDc, 14) == 16352
    ensures MinCode(LumDc, 15) == 32704 && MinCode(LumDc, 16) == 65408
    ensures ValPtr(LumDc, 1) == 0 && ValPtr(LumDc, 2) == 0 && ValPtr(LumDc, 3) == 1 && ValPtr(LumDc, 4) == 6
    ensures ValPtr(LumDc, 5) == 7 && ValPtr(LumDc, 6) == 8 && ValPtr(LumDc, 7) == 9 && ValPtr(LumDc, 8) == 10
    ensures ValPtr(LumDc, 9) == 11 && ValPtr(LumDc, 10) == 12 && ValPtr(LumDc, 11) == 12 && ValPtr(LumDc, 12) == 12
    ensures ValPtr(LumDc, 13) == 12 && ValPtr(LumDc, 14) == 12 && ValPtr(LumDc, 15) == 12 && ValPtr(LumDc, 16) == 12
  {
  }

  lemma LumAcStarts()
    ensures Count(LumAc, 1) == 0 && Count(LumAc, 2) == 2 && Count(LumAc, 3) == 1 && Count(LumAc, 4) == 3
    ensures Count(LumAc, 5) == 3 && Count(LumAc, 6) == 2 && Count(LumAc, 7) == 4 && Count(LumAc, 8) == 3
    ensures Count(LumAc, 9) == 5 && Count(LumAc, 10) == 5 && Count(LumAc, 11) == 4 && Count(LumAc, 12) == 4
    ensures Count(LumAc, 13) == 0 && Count(LumAc, 14) == 0 && Count(LumAc, 15) == 1 && Count(LumAc, 16) == 125
    ensures MinCode(LumAc, 1) == 0 && MinCode(LumAc, 2) == 0 && MinCode(LumAc, 3) == 4 && MinCode(LumAc, 4) == 10
    ensures MinCode(LumAc, 5) == 26 && MinCode(LumAc, 6) == 58 && MinCode(LumAc, 7) == 120 && MinCode(LumAc, 8) == 248
    ensures MinCode(LumAc, 9) == 502 && MinCode(LumAc, 10) == 1014
    ensures MinCode(LumAc, 11) == 2038 && MinCode(LumAc, 12) == 4084
    ensures MinCode(LumAc, 13) == 8176 && MinCode(LumAc, 14) == 16352
    ensures MinCode(LumAc, 15) == 32704 && MinCode(LumAc, 16) == 65410
    ensures ValPtr(LumAc, 1) == 0 && ValPtr(LumAc, 2) == 0 && ValPtr(LumAc, 3) == 2 && ValPtr(LumAc, 4) == 3
    ensures ValPtr(LumAc, 5) == 6 && ValPtr(LumAc, 6) == 9 && ValPtr(LumAc, 7) == 11 && ValPtr(LumAc, 8) == 15
    ensures ValPtr(LumAc, 9) == 18 && ValPtr(LumAc, 10) == 23 && ValPtr(LumAc, 11) == 28 && ValPtr(LumAc, 12) == 32
    ensures ValPtr(LumAc, 13) == 36 && ValPtr(LumAc, 14) == 36 && ValPtr(LumAc, 15) == 36 && ValPtr(LumAc, 16) == 37
  {
  }

  lemma ChromDcStarts()
    ensures Count(ChromDc, 1) == 0 && Count(ChromDc, 2) == 3 && Count(ChromDc, 3) == 1 && Count(ChromDc, 4) == 1
    ensures Count(ChromDc, 5) == 1 && Count(ChromDc, 6) == 1 && Count(ChromDc, 7) == 1 && Count(ChromDc, 8) == 1
    ensures Count(ChromDc, 9) == 1 && Count(ChromDc, 10) == 1 && Count(ChromDc, 11) == 1 && Count(ChromDc, 12) == 0
    ensures Count(ChromDc, 13) == 0 && Count(ChromDc, 14) == 0 && Count(ChromDc, 15) == 0 && Count(ChromDc, 16) == 0
    ensures MinCode(ChromDc, 1) == 0 && MinCode(ChromDc, 2) == 0
    ensures MinCode(ChromDc, 3) == 6 && MinCode(ChromDc, 4) == 14
    ensures MinCode(ChromDc, 5) == 30 && MinCode(ChromDc, 6) == 62
    ensures MinCode(ChromDc, 7) == 126 && MinCode(ChromDc, 8) == 254
    ensures MinCode(ChromDc, 9) == 510 && MinCode(ChromDc, 10) == 1022
    ensures MinCode(ChromDc, 11) == 2046 && MinCode(ChromDc, 12) == 4094
    ensures MinCode(ChromDc, 13) == 8188 && MinCode(ChromDc, 14) == 16376
    ensures MinCode(ChromDc, 15) == 32752 && MinCode(ChromDc, 16) == 65504
    ensures ValPtr(ChromDc, 1) == 0 && ValPtr(ChromDc, 2) == 0 && ValPtr(ChromDc, 3) == 3 && ValPtr(ChromDc, 4) == 4
    ensures ValPtr(ChromDc, 5) == 5 && ValPtr(ChromDc, 6) == 6 && ValPtr(ChromDc, 7) == 7 && ValPtr(ChromDc, 8) == 8
    ensures ValPtr(ChromDc, 9) == 9 && ValPtr(ChromDc, 10) == 10
    ensures ValPtr(ChromDc, 11) == 11 && ValPtr(ChromDc, 12) == 12
    ensures ValPtr(ChromDc, 13) == 12 && ValPtr(ChromDc, 14) == 12
    ensures ValPtr(ChromDc, 15) == 12 && ValPtr(ChromDc, 16) == 12
  {
  }

  lemma ChromAcStarts()
    ensures Count(ChromAc, 1) == 0 && Count(ChromAc, 2) == 2 && Count(ChromAc, 3) == 1 && Count(ChromAc, 4) == 2
    ensures Count(ChromAc, 5) == 4 && Count(ChromAc, 6) == 4 && Count(ChromAc, 7) == 3 && Count(ChromAc, 8) == 4
    ensures Count(ChromAc, 9) == 7 && Count(ChromAc, 10) == 5 && Count(ChromAc, 11) == 4 && Count(ChromAc, 12) == 4
    ensures Count(ChromAc, 13) == 0 && Count(ChromAc, 14) == 1 && Count(ChromAc, 15) == 2 && Count(ChromAc, 16) == 119
    ensures MinCode(ChromAc, 1) == 0 && MinCode(ChromAc, 2) == 0
    ensures MinCode(ChromAc, 3) == 4 && MinCode(ChromAc, 4) == 10
    ensures MinCode(ChromAc, 5) == 24 && MinCode(ChromAc, 6) == 56
    ensures MinCode(ChromAc, 7) == 120 && MinCode(ChromAc, 8) == 246
    ensures MinCode(ChromAc, 9) == 500 && MinCode(ChromAc, 10) == 1014
    ensures MinCode(ChromAc, 11) == 2038 && MinCode(ChromAc, 12) == 4084
    ensures MinCode(ChromAc, 13) == 8176 && MinCode(ChromAc, 14) == 16352
    ensures MinCode(ChromAc, 15) == 32706 && MinCode(ChromAc, 16) == 65416
    ensures ValPtr(ChromAc, 1) == 0 && ValPtr(ChromAc, 2) == 0 && ValPtr(ChromAc, 3) == 2 && ValPtr(ChromAc, 4) == 3
    ensures ValPtr(ChromAc, 5) == 5 && ValPtr(ChromAc, 6) == 9 && ValPtr(ChromAc, 7) == 13 && ValPtr(ChromAc, 8) == 16
    ensures ValPtr(ChromAc, 9) == 20 && ValPtr(ChromAc, 10) == 27
    ensures ValPtr(ChromAc, 11) == 32 && ValPtr(ChromAc, 12) == 36
    ensures ValPtr(ChromAc, 13) == 40 && ValPtr(ChromAc, 14) == 40
    ensures ValPtr(ChromAc, 15) == 41 && ValPtr(ChromAc, 16) == 43
  {
  }

  // ---------- the tables the writer uses ----------

  /** The code word for symbol s. */
  function Word(t: Table, s: nat): CodeWord {
    match t
    case LumDc => LumDcWord(s)
    case LumAc => LumAcWord(s)
    case ChromDc => ChromDcWord(s)
    case ChromAc => ChromAcWord(s)
  }

  const NONE := CodeWord(0, 0)

  function LumDcWord(s: nat): CodeWord {
    match s
    case 0 => CodeWord(0, 2) case 1 => CodeWord(2, 3) case 2 => CodeWord(3, 3) case 3 => CodeWord(4, 3)
    case 4 => CodeWord(5, 3) case 5 => CodeWord(6, 3) case 6 => CodeWord(14, 4) case 7 => CodeWord(30, 5)
    case 8 => CodeWord(62, 6) case 9 => CodeWord(126, 7) case 10 => CodeWord(254, 8) case 11 => CodeWord(510, 9)
    case _ => NONE
  }

  function LumAcWord(s: nat): CodeWord {
    match s / 16
    case 0 => LumAcWord0(s % 16) case 1 => LumAcWord1(s % 16) case 2 => LumAcWord2(s % 16)
    case 3 => LumAcWord3(s % 16) case 4 => LumAcWord4(s % 16) case 5 => LumAcWord5(s % 16)
    case 6 => LumAcWord6(s % 16) case 7 => LumAcWord7(s % 16) case 8 => LumAcWord8(s % 16)
    case 9 => LumAcWord9(s % 16) case 10 => LumAcWordA(s % 16) case 11 => LumAcWordB(s % 16)
    case 12 => LumAcWordC(s % 16) case 13 => LumAcWordD(s % 16) case 14 => LumAcWordE(s % 16)
    case _ => LumAcWordF(s % 16)
  }

  function LumAcWord0(i: nat): CodeWord {
    match i
    case 0 => CodeWord(10, 4) case 1 => CodeWord(0, 2) case 2 => CodeWord(1, 2) case 3 => CodeWord(4, 3)
    case 4 => CodeWord(11, 4) case 5 => CodeWord(26, 5) case 6 => CodeWord(120, 7) case 7 => CodeWord(248, 8)
    case 8 => CodeWord(1014, 10) case 9 => CodeWord(65410, 16) case 10 => CodeWord(65411, 16) case _ => NONE
  }

  function LumAcWord1(i: nat): CodeWord {
    match i
    case 0 => NONE case 1 => CodeWord(12, 4) case 2 => CodeWord(27, 5) case 3 => CodeWord(121, 7)
    case 4 => CodeWord(502, 9) case 5 => CodeWord(2038, 11) case 6 => CodeWord(65412, 16)
    case 7 => CodeWord(65413, 16) case 8 => CodeWord(65414, 16) case 9 => CodeWord(65415, 16)
    case 10 => CodeWord(65416, 16) case _ => NONE
  }

  function LumAcWord2(i: nat): CodeWord {
    match i
    case 0 => NONE case 1 => CodeWord(28, 5) case 2 => CodeWord(249, 8) case 3 => CodeWord(1015, 10)
    case 4 => CodeWord(4084, 12) case 5 => CodeWord(65417, 16) case 6 => CodeWord(65418, 16)
    case 7 => CodeWord(65419, 16) case 8 => CodeWord(65420, 16) case 9 => CodeWord(65421, 16)
    case 10 => CodeWord(65422, 16) case _ => NONE
  }

  function LumAcWord3(i: nat): CodeWord {
    match i
    case 0 => NONE case 1 => CodeWord(58, 6) case 2 => CodeWord(503, 9) case 3 => CodeWord(4085, 12)
    case 4 => CodeWord(65423, 16) case 5 => CodeWord(65424, 16) case 6 => CodeWord(65425, 16)
    case 7 => CodeWord(65426, 16) case 8 => CodeWord(65427, 16) case 9 => CodeWord(65428, 16)
    case 10 => CodeWord(65429, 16) case _ => NONE
  }

  function LumAcWord4(i: nat): CodeWord {
    match i
    case 0 => NONE case 1 => CodeWord(59, 6) case 2 => CodeWord(1016, 10) case 3 => CodeWord(65430, 16)
    case 4 => CodeWord(65431, 16) case 5 => CodeWord(65432, 16) case 6 => CodeWord(65433, 16)
    case 7 => CodeWord(65434, 16) case 8 => CodeWord(65435, 16) case 9 => CodeWord(65436, 16)
    case 10 => CodeWord(65437, 16) case _ => NONE
  }

  function LumAcWord5(i: nat): CodeWord {
    match i
    case 0 => NONE case 1 => CodeWord(122, 7) case 2 => CodeWord(2039, 11) case 3 => CodeWord(65438, 16)
    case 4 => CodeWord(65439, 16) case 5 => CodeWord(65440, 16) case 6 => CodeWord(65441, 16)
    case 7 => CodeWord(65442, 16) case 8 => CodeWord(65443, 16) case 9 => CodeWord(65444, 16)
    case 10 => CodeWord(65445, 16) case _ => NONE
  }

  function LumAcWord6(i: nat): CodeWord {
    match i
    case 0 => NONE case 1 => CodeWord(123, 7) case 2 => CodeWord(4086, 12) case 3 => CodeWord(65446, 16)
    case 4 => CodeWord(65447, 16) case 5 => CodeWord(65448, 16) case 6 => CodeWord(65449, 16)
    case 7 => CodeWord(65450, 16) case 8 => CodeWord(65451, 16) case 9 => CodeWord(65452, 16)
    case 10 => CodeWord(65453, 16) case _ => NONE
  }

  function LumAcWord7(i: nat): CodeWord {
    match i
    case 0 => NONE case 1 => CodeWord(250, 8) case 2 => CodeWord(4087, 12) case 3 => CodeWord(65454, 16)
    case 4 => CodeWord(65455, 16) case 5 => CodeWord(65456, 16) case 6 => CodeWord(65457, 16)
    case 7 => CodeWord(65458, 16) case 8 => CodeWord(65459, 16) case 9 => CodeWord(65460, 16)
    case 10 => CodeWord(65461, 16) case _ => NONE
  }

  function LumAcWord8(i: nat): CodeWord {
    match i
    case 0 => NONE case 1 => CodeWord(504, 9) case 2 => CodeWord(32704, 15) case 3 => CodeWord(65462, 16)
    case 4 => CodeWord(65463, 16) case 5 => CodeWord(65464, 16) case 6 => CodeWord(65465, 16)
    case 7 => CodeWord(65466, 16) case 8 => CodeWord(65467, 16) case 9 => CodeWord(65468, 16)
    case 10 => CodeWord(65469, 16) case _ => NONE
  }

  function LumAcWord9(i: nat): CodeWord {
    match i
    case 0 => NONE case 1 => CodeWord(505, 9) case 2 => CodeWord(65470, 16) case 3 => CodeWord(65471, 16)
    case 4 => CodeWord(65472, 16) case 5 => CodeWord(65473, 16) case 6 => CodeWord(65474, 16)
    case 7 => CodeWord(65475, 16) case 8 => CodeWord(65476, 16) case 9 => CodeWord(65477, 16)
    case 10 => CodeWord(65478, 16) case _ => NONE
  }

  function LumAcWordA(i: nat): CodeWord {
    match i
    case 0 => NONE case 1 => CodeWord(506, 9) case 2 => CodeWord(65479, 16) case 3 => CodeWord(65480, 16)
    case 4 => CodeWord(65481, 16) case 5 => CodeWord(65482, 16) case 6 => CodeWord(65483, 16)
    case 7 => CodeWord(65484, 16) case 8 => CodeWord(65485, 16) case 9 => CodeWord(65486, 16)
    case 10 => CodeWord(65487, 16) case _ => NONE
  }

  function LumAcWordB(i: nat): CodeWord {
    match i
    case 0 => NONE case 1 => CodeWord(1017, 10) case 2 => CodeWord(65488, 16) case 3 => CodeWord(65489, 16)
    case 4 => CodeWord(65490, 16) case 5 => CodeWord(65491, 16) case 6 => CodeWord(65492, 16)
    case 7 => CodeWord(65493, 16) case 8 => CodeWord(65494, 16) case 9 => CodeWord(65495, 16)
    case 10 => CodeWord(65496, 16) case _ => NONE
  }

  function LumAcWordC(i: nat): CodeWord {
    match i
    case 0 => NONE case 1 => CodeWord(1018, 10) case 2 => CodeWord(65497, 16) case 3 => CodeWord(65498, 16)
    case 4 => CodeWord(65499, 16) case 5 => CodeWord(65500, 16) case 6 => CodeWord(65501, 16)
    case 7 => CodeWord(65502, 16) case 8 => CodeWord(65503, 16) case 9 => CodeWord(65504, 16)
    case 10 => CodeWord(65505, 16) case _ => NONE
  }

  function LumAcWordD(i: nat): CodeWord {
    match i
    case 0 => NONE case 1 => CodeWord(2040, 11) case 2 => CodeWord(65506, 16) case 3 => CodeWord(65507, 16)
    case 4 => CodeWord(65508, 16) case 5 => CodeWord(65509, 16) case 6 => CodeWord(65510, 16)
    case 7 => CodeWord(65511, 16) case 8 => CodeWord(65512, 16) case 9 => CodeWord(65513, 16)
    case 10 => CodeWord(65514, 16) case _ => NONE
  }

  function LumAcWordE(i: nat): CodeWord {
    match i
    case 0 => NONE case 1 => CodeWord(65515, 16) case 2 => CodeWord(65516, 16) case 3 => CodeWord(65517, 16)
    case 4 => CodeWord(65518, 16) case 5 => CodeWord(65519, 16) case 6 => CodeWord(65520, 16)
    case 7 => CodeWord(65521, 16) case 8 => CodeWord(65522, 16) case 9 => CodeWord(65523, 16)
    case 10 => CodeWord(65524, 16) case _ => NONE
  }

  function LumAcWordF(i: nat): CodeWord {
    match i
    case 0 => CodeWord(2041, 11) case 1 => CodeWord(65525, 16) case 2 => CodeWord(65526, 16)
    case 3 => CodeWord(65527, 16) case 4 => CodeWord(65528, 16) case 5 => CodeWord(65529, 16)
    case 6 => CodeWord(65530, 16) case 7 => CodeWord(65531, 16) case 8 => CodeWord(65532, 16)
    case 9 => CodeWord(65533, 16) case 10 => CodeWord(65534, 16) case _ => NONE
  }

  function ChromDcWord(s: nat): CodeWord {
    match s
    case 0 => CodeWord(0, 2) case 1 => CodeWord(1, 2) case 2 => CodeWord(2, 2) case 3 => CodeWord(6, 3)
    case 4 => CodeWord(14, 4) case 5 => CodeWord(30, 5) case 6 => CodeWord(62, 6) case 7 => CodeWord(126, 7)
    case 8 => CodeWord(254, 8) case 9 => CodeWord(510, 9) case 10 => CodeWord(1022, 10)
    case 11 => CodeWord(2046, 11) case _ => NONE
  }

  function ChromAcWord(s: nat): CodeWord {
    match s / 16
    case 0 => ChromAcWord0(s % 16) case 1 => ChromAcWord1(s % 16) case 2 => ChromAcWord2(s % 16)
    case 3 => ChromAcWord3(s % 16) case 4 => ChromAcWord4(s % 16) case 5 => ChromAcWord5(s % 16)
    case 6 => ChromAcWord6(s % 16) case 7 => ChromAcWord7(s % 16) case 8 => ChromAcWord8(s % 16)
    case 9 => ChromAcWord9(s % 16) case 10 => ChromAcWordA(s % 16) case 11 => ChromAcWordB(s % 16)
    case 12 => ChromAcWordC(s % 16) case 13 => ChromAcWordD(s % 16) case 14 => ChromAcWordE(s % 16)
    case _ => ChromAcWordF(s % 16)
  }

  function ChromAcWord0(i: nat): CodeWord {
    match i
    case 0 => CodeWord(0, 2) case 1 => CodeWord(1, 2) case 2 => CodeWord(4, 3) case 3 => CodeWord(10, 4)
    case 4 => CodeWord(24, 5) case 5 => CodeWord(25, 5) case 6 => CodeWord(56, 6) case 7 => CodeWord(120, 7)
    case 8 => CodeWord(500, 9) case 9 => CodeWord(1014, 10) case 10 => CodeWord(4084, 12) case _ => NONE
  }

  function ChromAcWord1(i: nat): CodeWord {
    match i
    case 0 => NONE case 1 => CodeWord(11, 4) case 2 => CodeWord(57, 6) case 3 => CodeWord(246, 8)
    case 4 => CodeWord(501, 9) case 5 => CodeWord(2038, 11) case 6 => CodeWord(4085, 12)
    case 7 => CodeWord(65416, 16) case 8 => CodeWord(65417, 16) case 9 => CodeWord(65418, 16)
    case 10 => CodeWord(65419, 16) case _ => NONE
  }

  function ChromAcWord2(i: nat): CodeWord {
    match i
    case 0 => NONE case 1 => CodeWord(26, 5) case 2 => CodeWord(247, 8) case 3 => CodeWord(1015, 10)
    case 4 => CodeWord(4086, 12) case 5 => CodeWord(32706, 15) case 6 => CodeWord(65420, 16)
    case 7 => CodeWord(65421, 16) case 8 => CodeWord(65422, 16) case 9 => CodeWord(65423, 16)
    case 10 => CodeWord(65424, 16) case _ => NONE
  }

  function ChromAcWord3(i: nat): CodeWord {
    match i
    case 0 => NONE case 1 => CodeWord(27, 5) case 2 => CodeWord(248, 8) case 3 => CodeWord(1016, 10)
    case 4 => CodeWord(4087, 12) case 5 => CodeWord(65425, 16) case 6 => CodeWord(65426, 16)
    case 7 => CodeWord(65427, 16) case 8 => CodeWord(65428, 16) case 9 => CodeWord(65429, 16)
    case 10 => CodeWord(65430, 16) case _ => NONE
  }

  function ChromAcWord4(i: nat): CodeWord {
    match i
    case 0 => NONE case 1 => CodeWord(58, 6) case 2 => CodeWord(502, 9) case 3 => CodeWord(65431, 16)
    case 4 => CodeWord(65432, 16) case 5 => CodeWord(65433, 16) case 6 => CodeWord(65434, 16)
    case 7 => CodeWord(65435, 16) case 8 => CodeWord(65436, 16) case 9 => CodeWord(65437, 16)
    case 10 => CodeWord(65438, 16) case _ => NONE
  }

  function ChromAcWord5(i: nat): CodeWord {
    match i
    case 0 => NONE case 1 => CodeWord(59, 6) case 2 => CodeWord(1017, 10) case 3 => CodeWord(65439, 16)
    case 4 => CodeWord(65440, 16) case 5 => CodeWord(65441, 16) case 6 => CodeWord(65442, 16)
    case 7 => CodeWord(65443, 16) case 8 => CodeWord(65444, 16) case 9 => CodeWord(65445, 16)
    case 10 => CodeWord(65446, 16) case _ => NONE
  }

  function ChromAcWord6(i: nat): CodeWord {
    match i
    case 0 => NONE case 1 => CodeWord(121, 7) case 2 => CodeWord(2039, 11) case 3 => CodeWord(65447, 16)
    case 4 => CodeWord(65448, 16) case 5 => CodeWord(65449, 16) case 6 => CodeWord(65450, 16)
    case 7 => CodeWord(65451, 16) case 8 => CodeWord(65452, 16) case 9 => CodeWord(65453, 16)
    case 10 => CodeWord(65454, 16) case _ => NONE
  }

  function ChromAcWord7(i: nat): CodeWord {
    match i
    case 0 => NONE case 1 => CodeWord(122, 7) case 2 => CodeWord(2040, 11) case 3 => CodeWord(65455, 16)
    case 4 => CodeWord(65456, 16) case 5 => CodeWord(65457, 16) case 6 => CodeWord(65458, 16)
    case 7 => CodeWord(65459, 16) case 8 => CodeWord(65460, 16) case 9 => CodeWord(65461, 16)
    case 10 => CodeWord(65462, 16) case _ => NONE
  }

  function ChromAcWord8(i: nat): CodeWord {
    match i
    case 0 => NONE case 1 => CodeWord(249, 8) case 2 => CodeWord(65463, 16) case 3 => CodeWord(65464, 16)
    case 4 => CodeWord(65465, 16) case 5 => CodeWord(65466, 16) case 6 => CodeWord(65467, 16)
    case 7 => CodeWord(65468, 16) case 8 => CodeWord(65469, 16) case 9 => CodeWord(65470, 16)
    case 10 => CodeWord(65471, 16) case _ => NONE
  }

  function ChromAcWord9(i: nat): CodeWord {
    match i
    case 0 => NONE case 1 => CodeWord(503, 9) case 2 => CodeWord(65472, 16) case 3 => CodeWord(65473, 16)
    case 4 => CodeWord(65474, 16) case 5 => CodeWord(65475, 16) case 6 => CodeWord(65476, 16)
    case 7 => CodeWord(65477, 16) case 8 => CodeWord(65478, 16) case 9 => CodeWord(65479, 16)
    case 10 => CodeWord(65480, 16) case _ => NONE
  }

  function ChromAcWordA(i: nat): CodeWord {
    match i
    case 0 => NONE case 1 => CodeWord(504, 9) case 2 => CodeWord(65481, 16) case 3 => CodeWord(65482, 16)
    case 4 => CodeWord(65483, 16) case 5 => CodeWord(65484, 16) case 6 => CodeWord(65485, 16)
    case 7 => CodeWord(65486, 16) case 8 => CodeWord(65487, 16) case 9 => CodeWord(65488, 16)
    case 10 => CodeWord(65489, 16) case _ => NONE
  }

  function ChromAcWordB(i: nat): CodeWord {
    match i
    case 0 => NONE case 1 => CodeWord(505, 9) case 2 => CodeWord(65490, 16) case 3 => CodeWord(65491, 16)
    case 4 => CodeWord(65492, 16) case 5 => CodeWord(65493, 16) case 6 => CodeWord(65494, 16)
    case 7 => CodeWord(65495, 16) case 8 => CodeWord(65496, 16) case 9 => CodeWord(65497, 16)
    case 10 => CodeWord(65498, 16) case _ => NONE
  }

  function ChromAcWordC(i: nat): CodeWord {
    match i
    case 0 => NONE case 1 => CodeWord(506, 9) case 2 => CodeWord(65499, 16) case 3 => CodeWord(65500, 16)
    case 4 => CodeWord(65501, 16) case 5 => CodeWord(65502, 16) case 6 => CodeWord(65503, 16)
    case 7 => CodeWord(65504, 16) case 8 => CodeWord(65505, 16) case 9 => CodeWord(65506, 16)
    case 10 => CodeWord(65507, 16) case _ => NONE
  }

  function ChromAcWordD(i: nat): CodeWord {
    match i
    case 0 => NONE case 1 => CodeWord(2041, 11) case 2 => CodeWord(65508, 16) case 3 => CodeWord(65509, 16)
    case 4 => CodeWord(65510, 16) case 5 => CodeWord(65511, 16) case 6 => CodeWord(65512, 16)
    case 7 => CodeWord(65513, 16) case 8 => CodeWord(65514, 16) case 9 => CodeWord(65515, 16)
    case 10 => CodeWord(65516, 16) case _ => NONE
  }

  function ChromAcWordE(i: nat): CodeWord {
    match i
    case 0 => NONE case 1 => CodeWord(16352, 14) case 2 => CodeWord(65517, 16) case 3 => CodeWord(65518, 16)
    case 4 => CodeWord(65519, 16) case 5 => CodeWord(65520, 16) case 6 => CodeWord(65521, 16)
    case 7 => CodeWord(65522, 16) case 8 => CodeWord(65523, 16) case 9 => CodeWord(65524, 16)
    case 10 => CodeWord(65525, 16) case _ => NONE
  }

  function ChromAcWordF(i: nat): CodeWord {
    match i
    case 0 => CodeWord(1018, 10) case 1 => CodeWord(32707, 15) case 2 => CodeWord(65526, 16)
    case 3 => CodeWord(65527, 16) case 4 => CodeWord(65528, 16) case 5 => CodeWord(65529, 16)
    case 6 => CodeWord(65530, 16) case 7 => CodeWord(65531, 16) case 8 => CodeWord(65532, 16)
    case 9 => CodeWord(65533, 16) case 10 => CodeWord(65534, 16) case _ => NONE
  }

  // ---------- every word used is the one the decoder expects ----------

  lemma LumDcAssigned(s: nat)
    ensures Assigned(LumDc, s, LumDcWord(s))
  {
    hide Count, MinCode, ValPtr;
    LumDcStarts();
  }

  lemma LumAcAssigned0(s: nat)
    requires 0 <= s < 32
    ensures Assigned(LumAc, s, LumAcWord(s))
  {
    hide Count, MinCode, ValPtr;
    LumAcStarts();
  }

  lemma LumAcAssigned1(s: nat)
    requires 32 <= s < 96
    ensures Assigned(LumAc, s, LumAcWord(s))
  {
    hide Count, MinCode, ValPtr;
    LumAcStarts();
  }

  lemma LumAcAssigned2(s: nat)
    requires 96 <= s < 176
    ensures Assigned(LumAc, s, LumAcWord(s))
  {
    hide Count, MinCode, ValPtr;
    LumAcStarts();
  }

  lemma LumAcAssigned3(s: nat)
    requires 176 <= s < 256
    ensures Assigned(LumAc, s, LumAcWord(s))
  {
    hide Count, MinCode, ValPtr;
    LumAcStarts();
  }

  lemma LumAcAssigned(s: nat)
    requires s < 256
    ensures Assigned(LumAc, s, LumAcWord(s))
  {
    hide Assigned, LumAcWord;
    if s < 32 {
      LumAcAssigned0(s);
    } else if s < 96 {
      LumAcAssigned1(s);
    } else if s < 176 {
      LumAcAssigned2(s);
    } else {
      LumAcAssigned3(s);
    }
  }

  lemma ChromDcAssigned(s: nat)
    ensures Assigned(ChromDc, s, ChromDcWord(s))
  {
    hide Count, MinCode, ValPtr;
    ChromDcStarts();
  }

  lemma ChromAcAssigned0(s: nat)
    requires 0 <= s < 32
    ensures Assigned(ChromAc, s, ChromAcWord(s))
  {
    hide Count, MinCode, ValPtr;
    ChromAcStarts();
  }

  lemma ChromAcAssigned1(s: nat)
    requires 32 <= s < 96
    ensures Assigned(ChromAc, s, ChromAcWord(s))
  {
    hide Count, MinCode, ValPtr;
    ChromAcStarts();
  }

  lemma ChromAcAssigned2(s: nat)
    requires 96 <= s < 176
    ensures Assigned(ChromAc, s, ChromAcWord(s))
  {
    hide Count, MinCode, ValPtr;
    ChromAcStarts();
  }

  lemma ChromAcAssigned3(s: nat)
    requires 176 <= s < 256
    ensures Assigned(ChromAc, s, ChromAcWord(s))
  {
    hide Count, MinCode, ValPtr;
    ChromAcStarts();
  }

  lemma ChromAcAssigned(s: nat)
    requires s < 256
    ensures Assigned(ChromAc, s, ChromAcWord(s))
  {
    hide Assigned, ChromAcWord;
    if s < 32 {
      ChromAcAssigned0(s);
    } else if s < 96 {
      ChromAcAssigned1(s);
    } else if s < 176 {
      ChromAcAssigned2(s);
    } else {
      ChromAcAssigned3(s);
    }
  }

  /** The writer's words are those that Annex C assigns from the counts and values in the file. */
  lemma WordsAreAssigned(t: Table, s: nat)
    requires s < 256
    ensures Assigned(t, s, Word(t, s))
  {
    hide Assigned;
    match t
    case LumDc => LumDcAssigned(s);
    case LumAc => LumAcAssigned(s);
    case ChromDc => ChromDcAssigned(s);
    case ChromAc => ChromAcAssigned(s);
  }
}
