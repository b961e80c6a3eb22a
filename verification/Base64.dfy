/**
 Base64: the encoder, and the decoder that walks its text with whitespace, padding and error cases; what the decoder
 accepts, what it gives back, and that it undoes the encoder (RFC 4648, section 4).
 */
module Base64 {
  import opened Bits

  // ---------- the alphabet and its table ----------

  const UPPER: string := "ABCDEFGHIJKLMNOPQRSTUVWXYZ"
  const LOWER: string := "abcdefghijklmnopqrstuvwxyz"
  const OTHER: string := "0123456789+/"

  const ALPHABET: string := UPPER + LOWER + OTHER

  predicate InAlphabet(c: char) {
    'A' <= c <= 'Z' || 'a' <= c <= 'z' || '0' <= c <= '9' || c == '+' || c == '/'
  }

  /** The table entry of a character: its place in the alphabet, or 255 for a character outside. */
  function Place(c: char): (p: byte)
    ensures InAlphabet(c) <==> p < 64
    ensures p < 64 || p == 255
  {
    if 'A' <= c <= 'Z' then c as int - 65
    else if 'a' <= c <= 'z' then c as int - 71
    else if '0' <= c <= '9' then c as int + 4
    else if c == '+' then 62
    else if c == '/' then 63
    else 255
  }

  lemma UpperAt(p: nat)
    requires p < 26
    ensures UPPER[p] == (p + 65) as char
  {
  }

  lemma LowerAt(p: nat)
    requires p < 26
    ensures LOWER[p] == (p + 97) as char
  {
  }

  lemma OtherAt(p: nat)
    requires p < 12
    ensures OTHER[p] == if p < 10 then (p + 48) as char else if p == 10 then '+' else '/'
  {
  }

  /** The alphabet has 64 letters, and the table finds the place of each. */
  lemma LetterAt(p: nat)
    requires p < 64
    ensures |ALPHABET| == 64 && Place(ALPHABET[p]) == p && ALPHABET[p] as int < 256
  {
    if p < 26 {
      UpperAt(p);
    } else if p < 52 {
      LowerAt(p - 26);
    } else {
      OtherAt(p - 52);
    }
  }

  lemma PlaceIsOnce(p: nat, c: char)
    requires p < 64
    ensures |ALPHABET| == 64 && (Place(c) == p <==> c == ALPHABET[p])
  {
    LetterAt(p);
    if p < 26 {
      UpperAt(p);
    } else if p < 52 {
      LowerAt(p - 26);
    } else {
      OtherAt(p - 52);
    }
  }

  function Letter(u: byte): (c: char)
    requires u < 64
  {
    LetterAt(u);
    ALPHABET[u]
  }

  lemma PlaceOfLetter(u: byte)
    requires u < 64
    ensures Place(Letter(u)) == u && InAlphabet(Letter(u))
  {
    LetterAt(u);
  }

  lemma LetterOfPlace(c: char)
    requires InAlphabet(c)
    ensures Letter(Place(c)) == c
  {
    hide ALPHABET, Place, InAlphabet;
    PlaceIsOnce(Place(c), c);
  }

  /** The table as it is built at start-up: 255 everywhere, then the place of each letter. */
  method BuildTable() returns (table: array<byte>)
    ensures fresh(table) && table.Length == 256
    ensures forall c: char :: c as int < 256 ==> table[c as int] == Place(c)
  {
    hide ALPHABET, Place, InAlphabet;
    table := new byte[256](_ => 255);
    LetterAt(0);
    for i := 0 to 64
      invariant forall c: char :: c as int < 256 ==> table[c as int] == if Place(c) < i then Place(c) else 255
    {
      LetterAt(i);
      forall c: char ensures Place(c) == i <==> c == ALPHABET[i] {
        PlaceIsOnce(i, c);
      }
      table[ALPHABET[i] as int] := i;
    }
  }

  // ---------- groups of letters and the bytes they carry ----------

  function FirstBits(a: bv8, b: bv8): bv8 { (a << 2) | (b >> 4) }

  function SecondBits(b: bv8, c: bv8): bv8 { ((b & 0xf) << 4) | (c >> 2) }

  function ThirdBits(c: bv8, d: bv8): bv8 { ((c & 0x3) << 6) | d }

  function Bits0(x: bv8): bv8 { x >> 2 }

  function Bits1(x: bv8, y: bv8): bv8 { ((x & 0x03) << 4) | (y >> 4) }

  function Bits2(y: bv8, z: bv8): bv8 { ((y & 0x0f) << 2) | (z >> 6) }

  function Bits3(z: bv8): bv8 { z & 0x3f }

  // The bytes of a group, from the table entries of its characters.

  function First(a: byte, b: byte): byte { FirstBits(a as bv8, b as bv8) as int }

  function Second(b: byte, c: byte): byte { SecondBits(b as bv8, c as bv8) as int }

  function Third(c: byte, d: byte): byte { ThirdBits(c as bv8, d as bv8) as int }

  // The places of the letters of a group, from its bytes.

  function Sextet0(x: byte): (u: byte)
    ensures u < 64
  {
    assert Bits0(x as bv8) < 64;
    Bits0(x as bv8) as int
  }

  function Sextet1(x: byte, y: byte): (u: byte)
    ensures u < 64
  {
    assert Bits1(x as bv8, y as bv8) < 64;
    Bits1(x as bv8, y as bv8) as int
  }

  function Sextet2(y: byte, z: byte): (u: byte)
    ensures u < 64
  {
    assert Bits2(y as bv8, z as bv8) < 64;
    Bits2(y as bv8, z as bv8) as int
  }

  function Sextet3(z: byte): (u: byte)
    ensures u < 64
  {
    assert Bits3(z as bv8) < 64;
    Bits3(z as bv8) as int
  }

  lemma BitsAreKept(v: bv8)
    ensures (v as int) as bv8 == v
  {
  }

  lemma ByteIsKept(v: byte)
    ensures (v as bv8) as int == v
  {
    assert v % 256 == v;
  }

  lemma SmallIsKept(v: byte)
    requires v < 64
    ensures v as bv8 < 64
  {
  }

  lemma JoinBits(x: bv8, y: bv8, z: bv8)
    ensures FirstBits(Bits0(x), Bits1(x, y)) == x
    ensures SecondBits(Bits1(x, y), Bits2(y, z)) == y
    ensures ThirdBits(Bits2(y, z), Bits3(z)) == z
  {
  }

  lemma SplitBits(a: bv8, b: bv8, c: bv8, d: bv8)
    requires a < 64 && b < 64 && c < 64 && d < 64
    ensures Bits0(FirstBits(a, b)) == a
    ensures Bits1(FirstBits(a, b), SecondBits(b, c)) == b
    ensures Bits2(SecondBits(b, c), ThirdBits(c, d)) == c
    ensures Bits3(ThirdBits(c, d)) == d
  {
  }

  /** Three bytes are split into four sextets, and joined again. */
  lemma JoinOfSplit(x: byte, y: byte, z: byte)
    ensures First(Sextet0(x), Sextet1(x, y)) == x
    ensures Second(Sextet1(x, y), Sextet2(y, z)) == y
    ensures Third(Sextet2(y, z), Sextet3(z)) == z
  {
    hide FirstBits, SecondBits, ThirdBits, Bits0, Bits1, Bits2, Bits3;
    var p, q, r := x as bv8, y as bv8, z as bv8;
    JoinBits(p, q, r);
    BitsAreKept(Bits0(p));
    BitsAreKept(Bits1(p, q));
    BitsAreKept(Bits2(q, r));
    BitsAreKept(Bits3(r));
    ByteIsKept(x);
    ByteIsKept(y);
    ByteIsKept(z);
  }

  /** Four sextets are joined to three bytes, and split again. */
  lemma SplitOfJoin(a: byte, b: byte, c: byte, d: byte)
    requires a < 64 && b < 64 && c < 64 && d < 64
    ensures Sextet0(First(a, b)) == a && Sextet1(First(a, b), Second(b, c)) == b
    ensures Sextet2(Second(b, c), Third(c, d)) == c && Sextet3(Third(c, d)) == d
  {
    hide FirstBits, SecondBits, ThirdBits, Bits0, Bits1, Bits2, Bits3;
    var p, q, r, s := a as bv8, b as bv8, c as bv8, d as bv8;
    SmallIsKept(a);
    SmallIsKept(b);
    SmallIsKept(c);
    SmallIsKept(d);
    SplitBits(p, q, r, s);
    BitsAreKept(FirstBits(p, q));
    BitsAreKept(SecondBits(q, r));
    BitsAreKept(ThirdBits(r, s));
    ByteIsKept(a);
    ByteIsKept(b);
    ByteIsKept(c);
    ByteIsKept(d);
  }

  // ---------- what the decoder accepts and gives ----------

  predicate IsSpace(c: char) {
    c == ' ' || 9 <= c as int <= 13
  }

  predicate AllSpace(s: string) {
    forall i :: 0 <= i < |s| ==> IsSpace(s[i])
  }

  predicate NoSpace(s: string) {
    forall i :: 0 <= i < |s| ==> !IsSpace(s[i])
  }

  /** The bytes of the first group of a text, three at most. */
  function FirstBytes(t: string): seq<byte> {
    if |t| < 2 then []
    else if |t| == 2 || t[2] == '=' then [First(Place(t[0]), Place(t[1]))]
    else if |t| == 3 || t[3] == '=' then [First(Place(t[0]), Place(t[1])), Second(Place(t[1]), Place(t[2]))]
    else [First(Place(t[0]), Place(t[1])), Second(Place(t[1]), Place(t[2])), Third(Place(t[2]), Place(t[3]))]
  }

  predicate GroupIsFull(t: string) {
    |t| > 3 && t[2] != '=' && t[3] != '='
  }

  /** The bytes decoded from a text without whitespace, a group of four at a time, errors or not. */
  function Bytes(t: string): seq<byte> {
    FirstBytes(t) + if GroupIsFull(t) then Bytes(t[4..]) else []
  }

  /** Whether a text without whitespace is accepted, group by group. */
  predicate Valid(t: string) {
    if |t| <= 1 then t == []
    else if |t| == 2 then true
    else if t[2] == '=' then |t| == 4 && t[3] == '='
    else if |t| == 3 then true
    else if t[3] == '=' then |t| == 4
    else Valid(t[4..])
  }

  /** Where the whitespace from i on ends. */
  function SpaceEnd(text: string, i: nat): (e: nat)
    requires i <= |text|
    ensures i <= e <= |text| && AllSpace(text[i..e]) && (e == |text| || !IsSpace(text[e]))
    decreases |text| - i
  {
    if i == |text| || !IsSpace(text[i]) then i else
    var e := SpaceEnd(text, i + 1);
    assert text[i..e] == [text[i]] + text[i + 1..e];
    e
  }

  /** Where the text without whitespace from i on ends. */
  function WordEnd(text: string, i: nat): (e: nat)
    requires i <= |text|
    ensures i <= e <= |text| && NoSpace(text[i..e]) && (e == |text| || IsSpace(text[e]))
    decreases |text| - i
  {
    if i == |text| || IsSpace(text[i]) then i else
    var e := WordEnd(text, i + 1);
    assert text[i..e] == [text[i]] + text[i + 1..e];
    e
  }

  /** The first word of a text. */
  function Word(text: string): (w: string)
    ensures NoSpace(w)
  {
    text[SpaceEnd(text, 0)..WordEnd(text, SpaceEnd(text, 0))]
  }

  /** A text is accepted if its first word is valid and only whitespace follows it. */
  predicate Accepts(text: string) {
    Valid(Word(text)) && AllSpace(text[WordEnd(text, SpaceEnd(text, 0))..])
  }

  /** The first '=' where padding may stand, in the second half of a group of four; the length if there is none. */
  function FirstPad(t: string, from: nat): (p: nat)
    requires from <= |t|
    ensures from <= p <= |t|
    decreases |t| - from
  {
    if from == |t| || (from % 4 >= 2 && t[from] == '=') then from else FirstPad(t, from + 1)
  }

  lemma {:induction false} FirstPadMoves(t: string, from: nat)
    requires 4 <= from <= |t|
    ensures FirstPad(t, from) == 4 + FirstPad(t[4..], from - 4)
    decreases |t| - from
  {
    if from < |t| {
      FirstPadMoves(t, from + 1);
      assert t[4..][from - 4] == t[from] && (from - 4) % 4 == from % 4;
    }
  }

  // ---------- reads past the text ----------

  /**
   In the word at start the first pad is the third of its group, and what follows it in the text is not the second
   pad. The decoder then has its cursor one character ahead of its count of characters left.
   */
  predicate StrayPad(text: string, start: nat)
    requires start <= |text|
  {
    var w := text[start..WordEnd(text, start)];
    var p := FirstPad(w, 0);
    p < |w| && p % 4 == 2 && start + p + 1 < |text| && text[start + p + 1] != '='
  }

  /** And from two behind that pad on there is only whitespace, so the cursor gets to the end before the count does. */
  predicate ReadsPast(text: string) {
    var start := SpaceEnd(text, 0);
    StrayPad(text, start) && AllSpace(text[start + FirstPad(text[start..WordEnd(text, start)], 0) + 2..])
  }

  /** Where padding first stands in a word, as far as its first group tells. */
  lemma GroupPad(t: string)
    ensures |t| <= 2 ==> FirstPad(t, 0) == |t|
    ensures |t| > 2 && t[2] == '=' ==> FirstPad(t, 0) == 2
    ensures |t| == 3 && t[2] != '=' ==> FirstPad(t, 0) == 3
    ensures |t| > 3 && t[2] != '=' && t[3] == '=' ==> FirstPad(t, 0) == 3
    ensures |t| > 3 && t[2] != '=' && t[3] != '=' ==> FirstPad(t, 0) == 4 + FirstPad(t[4..], 0)
  {
    if |t| > 0 {
      assert FirstPad(t, 0) == FirstPad(t, 1);
    }
    if |t| > 1 {
      assert FirstPad(t, 1) == FirstPad(t, 2);
    }
    if |t| > 2 && t[2] != '=' {
      assert FirstPad(t, 2) == FirstPad(t, 3);
    }
    if |t| > 3 && t[2] != '=' && t[3] != '=' {
      assert FirstPad(t, 3) == FirstPad(t, 4);
      FirstPadMoves(t, 4);
    }
  }

  /** After a whole group, the rest of the word decides where the first pad is and whether it is stray. */
  lemma StrayGoesOn(text: string, from: nat, pos: nat)
    requires from <= |text| && pos == from + 4 <= WordEnd(text, from) == WordEnd(text, pos)
    requires var t := text[from..WordEnd(text, from)]; t[2] != '=' && t[3] != '='
    ensures FirstPad(text[from..WordEnd(text, from)], 0) == 4 + FirstPad(text[pos..WordEnd(text, from)], 0)
    ensures StrayPad(text, from) <==> StrayPad(text, pos)
  {
    hide WordEnd, FirstPad;
    var e := WordEnd(text, from);
    GroupPad(text[from..e]);
    assert text[from..e][4..] == text[pos..e];
  }

  // ---------- the decoder ----------

  method SkipSpace(text: string, from: nat) returns (pos: nat)
    requires from <= |text|
    ensures pos == SpaceEnd(text, from)
  {
    pos := from;
    while pos < |text| && IsSpace(text[pos])
      invariant pos <= |text| && SpaceEnd(text, pos) == SpaceEnd(text, from)
    {
      pos := pos + 1;
    }
  }

  /** The trailing whitespace: the source reads at its cursor while its count says that characters are left. */
  method SkipTrailing(text: string, after: char, from: nat, left: nat) returns (rest: nat, ghost past: bool)
    requires from <= |text| <= from + left <= |text| + 1
    ensures past == (from + left > |text| && SpaceEnd(text, from) == |text|)
    ensures rest == if from + left > |text| == SpaceEnd(text, from) && IsSpace(after) then 0
                    else from + left - SpaceEnd(text, from)
  {
    var data := from;
    rest, past := left, false;
    while rest != 0
      invariant data + rest == from + left && from <= data
      invariant past ==> rest == 0 && data == |text| + 1 && SpaceEnd(text, from) == |text| && IsSpace(after)
      invariant !past ==> data <= |text| && SpaceEnd(text, data) == SpaceEnd(text, from)
    {
      past := data == |text|;
      var c := if data < |text| then text[data] else after;
      if !IsSpace(c) {
        break;
      }
      rest := rest - 1;
      data := data + 1;
    }
  }

  /**
   One group of letters from the cursor on, appended to result; done tells that the loop is left. The text up to the
   next whitespace is one word, and what is known of it is what the group and the rest of it say. The source keeps the
   cursor and the count of characters left apart, and behind a stray pad they no longer agree.
   */
  method DecodeGroup(text: string, from: nat, before: seq<byte>)
    returns (pos: nat, len: nat, result: seq<byte>, error: bool, done: bool)
    requires from < |text| && !IsSpace(text[from])
    ensures from <= pos <= |text| && len < |text| - from
    ensures var t := text[from..WordEnd(text, from)];
            if done then result == before + Bytes(t) && (Valid(t) <==> !error && pos == WordEnd(text, from))
            else !error && pos == from + 4 <= WordEnd(text, from) && t[2] != '=' && t[3] != '=' &&
                 result + Bytes(t[4..]) == before + Bytes(t)
    ensures pos + len == |text| + if done && StrayPad(text, from) then 1 else 0
    ensures done ==> (StrayPad(text, from) ==> error && pos == from + FirstPad(text[from..WordEnd(text, from)], 0) + 2)
    ensures done && !StrayPad(text, from) ==> pos <= WordEnd(text, from)
  {
    hide First, Second, Third, Place, InAlphabet, WordEnd, NoSpace, IsSpace, Bytes, Valid, FirstPad;
    PadIsNoSpace();
    InWord(text, from);
    GroupValid(text[from..WordEnd(text, from)]);
    GroupBytes(text[from..WordEnd(text, from)]);
    GroupPad(text[from..WordEnd(text, from)]);
    pos, len, result, error, done := from, |text| - from, before, false, true;
    var a := Place(text[pos]);
    pos, len := pos + 1, len - 1;
    if a == -1 {
      error := true;
      return;
    }
    if len == 0 || IsSpace(text[pos]) {
      error := true;
      return;
    }
    var b := Place(text[pos]);
    pos, len := pos + 1, len - 1;
    if b == -1 {
      error := true;
      return;
    }
    result := result + [First(a, b)];
    if len == 0 || IsSpace(text[pos]) {
      return;
    }
    if text[pos] == '=' {
      pos, len := pos + 1, len - 1;
      if len == 0 {
        error := true;
        return;
      }
      pos := pos + 1;
      if text[pos - 1] != '=' {
        error := true;
        return;
      }
      len := len - 1;
      return;
    }
    var c := Place(text[pos]);
    pos, len := pos + 1, len - 1;
    if c == -1 {
      error := true;
      return;
    }
    result := result + [Second(b, c)];
    if len == 0 || IsSpace(text[pos]) {
      return;
    }
    if text[pos] == '=' {
      pos, len := pos + 1, len - 1;
      return;
    }
    var d := Place(text[pos]);
    pos, len := pos + 1, len - 1;
    if d == -1 {
      error := true;
      return;
    }
    result := result + [Third(c, d)];
    done := false;
  }

  /** Whether a word is valid, as far as its first group tells. */
  lemma GroupValid(t: string)
    ensures |t| == 1 ==> !Valid(t)
    ensures |t| == 2 ==> Valid(t)
    ensures |t| > 2 && t[2] == '=' ==> (Valid(t) <==> |t| == 4 && t[3] == '=')
    ensures |t| > 2 && t[2] != '=' && (|t| == 3 || t[3] == '=') ==> (Valid(t) <==> |t| <= 4)
    ensures |t| > 3 && t[2] != '=' && t[3] != '=' ==> (Valid(t) <==> Valid(t[4..]))
  {
  }

  /** The bytes of a word, as far as its first group tells. */
  lemma GroupBytes(t: string)
    ensures Bytes(t) == FirstBytes(t) + if GroupIsFull(t) then Bytes(t[4..]) else []
    ensures !GroupIsFull(t) ==> Bytes(t) == FirstBytes(t)
  {
    hide FirstBytes;
    if !GroupIsFull(t) {
      assert FirstBytes(t) + [] == FirstBytes(t);
    }
  }

  lemma PadIsNoSpace()
    ensures !IsSpace('=')
  {
  }

  /** A place in the word is before its end exactly if it is not whitespace and not past the text. */
  lemma InWord(text: string, from: nat)
    requires from <= |text|
    ensures forall i :: from <= i < WordEnd(text, from) ==> !IsSpace(text[i])
    ensures WordEnd(text, from) < |text| ==> IsSpace(text[WordEnd(text, from)])
  {
    var t := text[from..WordEnd(text, from)];
    forall i | from <= i < WordEnd(text, from) ensures !IsSpace(text[i]) {
      assert t[i - from] == text[i];
    }
  }

  lemma NoLetters()
    ensures Bytes([]) == [] && Valid([])
  {
  }

  lemma WordEndsHere(text: string, pos: nat)
    requires pos <= |text| && (pos == |text| || IsSpace(text[pos]))
    ensures WordEnd(text, pos) == pos
  {
  }

  /** After a whole group, the rest of the word is what decides. */
  lemma WordGoesOn(text: string, from: nat, pos: nat)
    requires from <= |text| && pos == from + 4 <= WordEnd(text, from)
    requires var t := text[from..WordEnd(text, from)]; t[2] != '=' && t[3] != '='
    ensures WordEnd(text, pos) == WordEnd(text, from)
    ensures text[from..WordEnd(text, from)][4..] == text[pos..WordEnd(text, from)]
    ensures Valid(text[from..WordEnd(text, from)]) <==> Valid(text[pos..WordEnd(text, from)])
  {
    assert WordEnd(text, from) == WordEnd(text, from + 1) == WordEnd(text, from + 2);
    assert WordEnd(text, from + 2) == WordEnd(text, from + 3) == WordEnd(text, pos);
  }

  lemma TrailingDecides(text: string, start: nat, pos: nat)
    requires start <= |text| && start <= pos <= WordEnd(text, start)
    ensures pos == WordEnd(text, start) ==> (SpaceEnd(text, pos) == |text| <==> AllSpace(text[pos..]))
    ensures pos < WordEnd(text, start) ==> SpaceEnd(text, pos) == pos
  {
    InWord(text, start);
    var s := SpaceEnd(text, pos);
    if s == |text| {
      assert text[pos..s] == text[pos..];
    } else {
      assert text[pos..][s - pos] == text[s];
    }
  }

  /**
   Decodes a text onto what the result already holds. The character after stands for what follows the text in memory;
   whether it is read is told exactly, and it makes no difference to what is returned.
   */
  method Base64Decode(text: string, after: char, before: seq<byte>)
    returns (ok: bool, result: seq<byte>, ghost past: bool)
    ensures ok == Accepts(text)
    ensures result == before + Bytes(Word(text))
    ensures past == ReadsPast(text)
  {
    hide Bytes, Valid, IsSpace, SpaceEnd, WordEnd, AllSpace, FirstPad, StrayPad;
    result, past := before, false;
    var error := false;
    var pos := SkipSpace(text, 0);
    var len := |text| - pos;
    ghost var start, e := pos, WordEnd(text, pos);
    ghost var word := text[start..e];
    NoLetters();
    NothingStray(text, pos);
    if len == 0 {
      TrailingDecides(text, pos, pos);
      assert word == [];
      return true, result, false;
    }
    var done := false;
    ghost var all := result + Bytes(word);
    while !done && len != 0 && !IsSpace(text[pos])
      invariant start <= pos <= |text| && e == WordEnd(text, start)
      invariant pos + len == |text| + if done && StrayPad(text, start) then 1 else 0
      invariant done ==> result == all && (Valid(word) <==> !error && pos == e)
      invariant done ==> if StrayPad(text, start) then error && pos == start + FirstPad(word, 0) + 2 else pos <= e
      invariant !done ==> !error && pos <= e == WordEnd(text, pos) && result + Bytes(text[pos..e]) == all
      invariant !done ==> (Valid(word) <==> Valid(text[pos..e])) && (StrayPad(text, start) <==> StrayPad(text, pos))
      invariant !done ==> FirstPad(word, 0) == pos - start + FirstPad(text[pos..e], 0)
      decreases len, !done
    {
      ghost var at := pos;
      pos, len, result, error, done := DecodeGroup(text, pos, result);
      if !done {
        WordGoesOn(text, at, pos);
        StrayGoesOn(text, at, pos);
      }
    }
    if !done {
      WordEndsHere(text, pos);
      NothingStray(text, pos);
      assert text[pos..e] == [];
    }
    if StrayPad(text, start) {
      SpaceToEnd(text, pos);
    } else {
      TrailingDecides(text, start, pos);
    }
    len, past := SkipTrailing(text, after, pos, len);
    if len != 0 {
      error := true;
    }
    ok := !error;
  }

  lemma NothingStray(text: string, pos: nat)
    requires pos <= |text|
    ensures WordEnd(text, pos) == pos ==> !StrayPad(text, pos)
  {
  }

  lemma SpaceToEnd(text: string, pos: nat)
    requires pos <= |text|
    ensures SpaceEnd(text, pos) == |text| <==> AllSpace(text[pos..])
  {
    var s := SpaceEnd(text, pos);
    if s < |text| {
      assert text[pos..][s - pos] == text[s];
    } else {
      assert text[pos..s] == text[pos..];
    }
  }

  /** For example "AA=A": the character behind it is read. */
  lemma ReadsPastExample()
    ensures ReadsPast("AA=A") && !Accepts("AA=A")
  {
    var t := "AA=A";
    EndsAre(t, 0, 0);
    EndsAre(t, 0, 4);
    assert t[0..4] == t;
    GroupPad(t);
    GroupValid(t);
  }

  // ---------- what is accepted, exactly ----------

  /** What is read past its end is never accepted. */
  lemma PastIsRejected(text: string)
    requires ReadsPast(text)
    ensures !Accepts(text)
  {
    hide FirstPad, SpaceEnd, WordEnd;
    var start := SpaceEnd(text, 0);
    var w := Word(text);
    var p := FirstPad(w, 0);
    ValidIff(w);
    if p + 1 < |w| {
      assert w[p + 1] == text[start + p + 1];
    }
  }

  /** Without padding any length but 1 mod 4 will do; padding has to complete its group and end the word. */
  predicate RightLength(t: string) {
    var p := FirstPad(t, 0);
    if p == |t| then |t| % 4 != 1
    else if p % 4 == 2 then |t| == p + 2 && t[p + 1] == '='
    else |t| == p + 1
  }

  lemma {:induction false} ValidIff(t: string)
    ensures Valid(t) <==> RightLength(t)
    decreases |t|
  {
    if |t| >= 4 {
      assert FirstPad(t, 0) == FirstPad(t, 1) == FirstPad(t, 2);
      if t[2] != '=' && t[3] != '=' {
        assert FirstPad(t, 2) == FirstPad(t, 3) == FirstPad(t, 4);
        ValidIff(t[4..]);
        FirstPadMoves(t, 4);
      }
    } else {
      assert |t| >= 1 ==> FirstPad(t, 0) == FirstPad(t, 1);
      assert |t| >= 2 ==> FirstPad(t, 1) == FirstPad(t, 2);
      assert |t| == 3 && t[2] != '=' ==> FirstPad(t, 2) == FirstPad(t, 3);
    }
  }

  /** A word of letters alone is accepted exactly if its length is not 1 mod 4. */
  lemma LettersAccepted(t: string)
    requires forall i :: 0 <= i < |t| ==> InAlphabet(t[i])
    ensures Valid(t) <==> |t| % 4 != 1
  {
    NoPad(t, 0);
    ValidIff(t);
  }

  lemma {:induction false} NoPad(t: string, from: nat)
    requires from <= |t| && forall i :: 0 <= i < |t| ==> InAlphabet(t[i])
    ensures FirstPad(t, from) == |t|
    decreases |t| - from
  {
    if from < |t| {
      NoPad(t, from + 1);
    }
  }

  lemma BeforeWord(text: string)
    ensures forall i :: 0 <= i < SpaceEnd(text, 0) ==> IsSpace(text[i])
  {
    var space := text[0..SpaceEnd(text, 0)];
    forall i | 0 <= i < SpaceEnd(text, 0) ensures IsSpace(text[i]) {
      assert space[i] == text[i];
    }
  }

  /** Whitespace inside the letters is an error. */
  lemma InteriorSpaceRejected(text: string, i: nat, j: nat, k: nat)
    requires i < j < k < |text| && !IsSpace(text[i]) && IsSpace(text[j]) && !IsSpace(text[k])
    ensures !Accepts(text)
  {
    var start := SpaceEnd(text, 0);
    var e := WordEnd(text, start);
    BeforeWord(text);
    InWord(text, start);
    assert e <= j;
    assert text[e..][k - e] == text[k];
  }

  // ---------- characters outside the alphabet ----------

  predicate IsForeign(c: char) {
    !InAlphabet(c) && c != '=' && !IsSpace(c)
  }

  /** The text with every foreign character replaced by a letter. */
  function Cleaned(text: string): (t: string)
    ensures |t| == |text|
  {
    seq(|text|, i requires 0 <= i < |text| => if IsForeign(text[i]) then 'A' else text[i])
  }

  lemma {:induction false} CleanedValid(t: string)
    ensures Valid(Cleaned(t)) <==> Valid(t)
  {
    if |t| >= 4 {
      CleanedValid(t[4..]);
      assert Cleaned(t)[4..] == Cleaned(t[4..]);
    }
  }

  lemma {:induction false} CleanedEnds(text: string, i: nat)
    requires i <= |text|
    ensures SpaceEnd(Cleaned(text), i) == SpaceEnd(text, i)
    ensures WordEnd(Cleaned(text), i) == WordEnd(text, i)
    decreases |text| - i
  {
    if i < |text| {
      CleanedEnds(text, i + 1);
    }
  }

  /** Foreign characters are never rejected as such: a text is accepted exactly if it would be with letters instead. */
  lemma ForeignAccepted(text: string)
    ensures Accepts(text) <==> Accepts(Cleaned(text))
  {
    hide SpaceEnd, WordEnd, Valid;
    var start := SpaceEnd(text, 0);
    var e := WordEnd(text, start);
    CleanedEnds(text, 0);
    CleanedEnds(text, start);
    CleanedValid(text[start..e]);
    assert Cleaned(text)[start..e] == Cleaned(text[start..e]);
    var a, b := text[e..], Cleaned(text)[e..];
    assert forall i :: 0 <= i < |a| ==> IsSpace(a[i]) == IsSpace(b[i]);
  }

  lemma ForeignBytes()
    ensures First(255, 255) == 255 && Second(255, 255) == 255 && Third(255, 255) == 255
    ensures First(255, 0) == 252 && Second(255, 0) == 240 && Third(255, 0) == 192
    ensures First(0, 255) == 15 && Second(0, 255) == 63 && Third(0, 255) == 255
  {
  }

  lemma ForeignExample()
    ensures Accepts("*!*!") && Bytes(Word("*!*!")) == [0xff, 0xff, 0xff]
  {
    hide First, Second, Third, SpaceEnd, WordEnd, Bytes, Valid;
    var t := "*!*!";
    ForeignBytes();
    EndsAre(t, 0, 0);
    EndsAre(t, 0, 4);
    assert t[0..4] == t && t[4..] == [];
    NoLetters();
    GroupValid(t);
    GroupBytes(t);
  }

  // ---------- the bytes of any word ----------

  /** Decoding stops at the first pad. */
  lemma {:induction false} BytesStopAtPad(t: string)
    ensures Bytes(t) == Bytes(t[..FirstPad(t, 0)])
    decreases |t|
  {
    hide First, Second, Third, Place, FirstPad;
    GroupPad(t);
    var p := FirstPad(t, 0);
    var u := t[..p];
    if GroupIsFull(t) {
      BytesStopAtPad(t[4..]);
      assert u[4..] == t[4..][..FirstPad(t[4..], 0)];
      assert FirstBytes(u) == FirstBytes(t);
    } else {
      assert FirstBytes(u) == FirstBytes(t);
    }
  }

  /** Letters that do not fill a group give the bytes they fill, as if zeros followed. */
  lemma {:induction false} BytesOfRest(t: string)
    requires forall i :: 0 <= i < |t| ==> t[i] != '='
    ensures |Bytes(t)| == |t| * 3 / 4 && Bytes(t) <= Bytes(t + "AA")
    decreases |t|
  {
    hide First, Second, Third, Place, Bytes, FirstBytes;
    var more := t + "AA";
    GroupBytes(t);
    GroupBytes(more);
    FirstBytesGrow(t);
    if |t| > 3 {
      BytesOfRest(t[4..]);
      assert more[4..] == t[4..] + "AA";
      Prefixes(FirstBytes(t), Bytes(t[4..]), Bytes(more[4..]));
    }
  }

  lemma Prefixes<T>(a: seq<T>, b: seq<T>, c: seq<T>)
    requires b <= c
    ensures a + b <= a + c
  {
  }

  lemma FirstBytesGrow(t: string)
    requires forall i :: 0 <= i < |t| ==> t[i] != '='
    ensures |t| > 3 ==> FirstBytes(t + "AA") == FirstBytes(t) && |FirstBytes(t)| == 3
    ensures |t| <= 3 ==> |FirstBytes(t)| == |t| * 3 / 4 && FirstBytes(t) <= FirstBytes(t + "AA")
  {
    hide First, Second, Third, Place;
  }

  // ---------- the encoder ----------

  /** The text of the first three bytes, or of what there is: four letters, or filled up with '=', or left short. */
  function Group(data: seq<byte>, padded: bool): string
    requires data != []
  {
    var x, y, z := data[0], if |data| > 1 then data[1] else 0, if |data| > 2 then data[2] else 0;
    [Letter(Sextet0(x)), Letter(Sextet1(x, y))] +
    (if |data| > 1 then [Letter(Sextet2(y, z))] else if padded then "=" else "") +
    (if |data| > 2 then [Letter(Sextet3(z))] else if padded then "=" else "")
  }

  function Encoded(data: seq<byte>, padded: bool): string {
    if data == [] then "" else Group(data, padded) + Encoded(data[Min(3, |data|)..], padded)
  }

  lemma BitsAre(x: bv8, y: bv8, z: bv8)
    ensures Bits1(x, y) == ((x & 0x03) << 4) | (y >> 4) && Bits1(x, 0) == (x & 0x03) << 4
    ensures Bits2(y, z) == ((y & 0x0f) << 2) | (z >> 6) && Bits2(y, 0) == (y & 0x0f) << 2 && Bits2(0, 0) == 0
    ensures Bits0(x) == x >> 2 && Bits3(z) == (z & 0x3f) << 0 && Bits3(0) == 0
  {
  }

  /** The sextets of a group of len bytes; past its end the bytes are not looked at. */
  method SextetBits(x: bv8, y: bv8, z: bv8, len: nat) returns (a: bv8, b: bv8, c: bv8, d: bv8)
    requires (len <= 1 ==> y == 0) && (len <= 2 ==> z == 0)
    ensures a == Bits0(x) && b == Bits1(x, y) && c == Bits2(y, z) && d == Bits3(z)
  {
    hide Bits0, Bits1, Bits2, Bits3;
    BitsAre(x, y, z);
    a, b, c, d := x >> 2, (x & 0x03) << 4, 0, 0;
    if len > 1 {
      b := b | (y >> 4);
      c := (y & 0x0f) << 2;
    }
    if len > 2 {
      c := c | (z >> 6);
      d := (z & 0x3f) << 0;
    }
  }

  method SextetsOf(x: byte, y: byte, z: byte, len: nat) returns (a: byte, b: byte, c: byte, d: byte)
    requires (len <= 1 ==> y == 0) && (len <= 2 ==> z == 0)
    ensures a == Sextet0(x) && b == Sextet1(x, y) && c == Sextet2(y, z) && d == Sextet3(z)
  {
    hide Bits0, Bits1, Bits2, Bits3;
    var p, q, r, s := SextetBits(x as bv8, y as bv8, z as bv8, len);
    a, b, c, d := p as int, q as int, r as int, s as int;
  }

  method Sextets(data: seq<byte>, pos: nat, len: nat) returns (a: byte, b: byte, c: byte, d: byte)
    requires len > 0 && pos + len == |data|
    ensures var x, y, z := data[pos], if len > 1 then data[pos + 1] else 0, if len > 2 then data[pos + 2] else 0;
            a == Sextet0(x) && b == Sextet1(x, y) && c == Sextet2(y, z) && d == Sextet3(z)
  {
    hide Sextet0, Sextet1, Sextet2, Sextet3;
    var x, y, z := data[pos], if len > 1 then data[pos + 1] else 0, if len > 2 then data[pos + 2] else 0;
    a, b, c, d := SextetsOf(x, y, z, len);
  }

  /** The body of the loop: the group of the bytes from pos on, len of them in all. */
  method EncodeGroup(data: seq<byte>, pos: nat, len: nat, before: string) returns (result: string)
    requires len > 0 && pos + len == |data|
    ensures result == before + Group(data[pos..], true)
  {
    hide Letter, Sextet0, Sextet1, Sextet2, Sextet3;
    var a, b, c, d := Sextets(data, pos, len);
    result := before + [Letter(a)];
    result := result + [Letter(b)];
    result := result + [if len > 1 then Letter(c) else '='];
    result := result + [if len > 2 then Letter(d) else '='];
  }

  /** Appends the text of data to what the result already holds. */
  method Base64Encode(data: seq<byte>, before: string) returns (result: string)
    ensures result == before + Encoded(data, true)
  {
    hide Group;
    result := before;
    var len: int, pos := |data|, 0;
    assert data[0..] == data;
    while len > 0
      invariant len == |data| - pos
      invariant result + Encoded(data[Min(pos, |data|)..], true) == before + Encoded(data, true)
    {
      assert data[pos..][Min(3, len)..] == data[Min(pos + 3, |data|)..];
      result := EncodeGroup(data, pos, len, result);
      len, pos := len - 3, pos + 3;
    }
    assert data[Min(pos, |data|)..] == [];
  }

  /** Padding is all that the two forms differ in: as many '=' as bytes are missing in the last group. */
  function Pad(n: nat): string {
    if n % 3 == 1 then "==" else if n % 3 == 2 then "=" else ""
  }

  lemma {:induction false} PaddingAtEnd(data: seq<byte>)
    ensures Encoded(data, true) == Encoded(data, false) + Pad(|data|)
  {
    hide Group, Pad;
    if data == [] {
      assert Pad(0) == "" by { PadOf(0); }
    } else {
      var rest := data[Min(3, |data|)..];
      GroupPadding(data);
      PaddingAtEnd(rest);
      PadOf(|data|);
      if |data| < 3 {
        assert rest == [];
      }
      Reassociate(Group(data, false), Encoded(rest, false), Pad(|rest|));
    }
  }

  lemma PadOf(n: nat)
    ensures Pad(0) == "" && Pad(1) == "==" && Pad(2) == "=" && Pad(n + 3) == Pad(n)
    ensures n >= 3 ==> Pad(n - 3) == Pad(n)
  {
  }

  lemma GroupPadding(data: seq<byte>)
    requires data != []
    ensures Group(data, true) ==
            Group(data, false) + if |data| == 1 then "==" else if |data| == 2 then "=" else ""
  {
    hide Letter, Sextet0, Sextet1, Sextet2, Sextet3;
  }

  lemma {:induction false} EncodedLength(data: seq<byte>)
    ensures |Encoded(data, true)| == (|data| + 2) / 3 * 4
  {
    if data != [] {
      EncodedLength(data[Min(3, |data|)..]);
    }
  }

  lemma GroupDecodes(a: byte, b: byte, c: byte, d: byte, rest: string)
    requires a < 64 && b < 64 && c < 64 && d < 64
    ensures var t := [Letter(a), Letter(b), Letter(c), Letter(d)] + rest;
            Bytes(t) == [First(a, b), Second(b, c), Third(c, d)] + Bytes(rest) &&
            (Valid(t) <==> Valid(rest)) && (NoSpace(rest) ==> NoSpace(t))
  {
    hide Letter, Place, First, Second, Third, Bytes, Valid;
    PlaceOfLetter(a);
    PlaceOfLetter(b);
    PlaceOfLetter(c);
    PlaceOfLetter(d);
    var t := [Letter(a), Letter(b), Letter(c), Letter(d)] + rest;
    assert t[4..] == rest;
    GroupValid(t);
    GroupBytes(t);
  }

  lemma LastGroupDecodes(data: seq<byte>, padded: bool)
    requires 1 <= |data| <= 2
    ensures Valid(Encoded(data, padded)) && Bytes(Encoded(data, padded)) == data && NoSpace(Encoded(data, padded))
  {
    hide Letter, Place, Sextet0, Sextet1, Sextet2, First, Second;
    var x, y := data[0], if |data| == 2 then data[1] else 0;
    JoinOfSplit(x, y, 0);
    PlaceOfLetter(Sextet0(x));
    PlaceOfLetter(Sextet1(x, y));
    PlaceOfLetter(Sextet2(y, 0));
    assert data == if |data| == 2 then [x, y] else [x];
  }

  lemma FullGroupDecodes(data: seq<byte>, padded: bool)
    requires |data| >= 3
    ensures var rest := Encoded(data[3..], padded);
            Bytes(Encoded(data, padded)) == data[..3] + Bytes(rest) &&
            (Valid(Encoded(data, padded)) <==> Valid(rest)) && (NoSpace(rest) ==> NoSpace(Encoded(data, padded)))
  {
    hide Letter, Bytes, Valid, NoSpace, First, Second, Third, Sextet0, Sextet1, Sextet2, Sextet3;
    var x, y, z, rest := data[0], data[1], data[2], Encoded(data[3..], padded);
    JoinOfSplit(x, y, z);
    GroupDecodes(Sextet0(x), Sextet1(x, y), Sextet2(y, z), Sextet3(z), rest);
    assert Group(data, padded) ==
           [Letter(Sextet0(x)), Letter(Sextet1(x, y)), Letter(Sextet2(y, z)), Letter(Sextet3(z))];
    assert Encoded(data, padded) == Group(data, padded) + rest;
  }

  /** Decoding undoes encoding, padded or not. */
  lemma {:induction false} EncodedDecodes(data: seq<byte>, padded: bool)
    ensures Valid(Encoded(data, padded)) && Bytes(Encoded(data, padded)) == data && NoSpace(Encoded(data, padded))
  {
    if data == [] {
      NoLetters();
    } else if |data| <= 2 {
      LastGroupDecodes(data, padded);
    } else {
      hide Bytes, Valid, NoSpace, Encoded;
      EncodedDecodes(data[3..], padded);
      FullGroupDecodes(data, padded);
    }
  }

  lemma EndsAre(text: string, i: nat, e: nat)
    requires i <= e <= |text|
    ensures AllSpace(text[i..e]) && (e == |text| || !IsSpace(text[e])) ==> SpaceEnd(text, i) == e
    ensures NoSpace(text[i..e]) && (e == |text| || IsSpace(text[e])) ==> WordEnd(text, i) == e
    decreases e - i
  {
    if i < e {
      EndsAre(text, i + 1, e);
      assert text[i..e][0] == text[i];
      assert text[i..e][1..] == text[i + 1..e];
    }
  }

  lemma WordOf(lead: string, t: string, trail: string)
    requires AllSpace(lead) && NoSpace(t) && AllSpace(trail)
    ensures Word(lead + t + trail) == t
    ensures AllSpace((lead + t + trail)[WordEnd(lead + t + trail, SpaceEnd(lead + t + trail, 0))..])
  {
    hide SpaceEnd, WordEnd;
    var text := lead + t + trail;
    var i, e := |lead|, |lead| + |t|;
    assert text[0..i] == lead && text[i..e] == t && text[e..] == trail;
    if t == [] {
      assert AllSpace(text[0..|text|]);
      EndsAre(text, 0, |text|);
      EndsAre(text, |text|, |text|);
    } else {
      EndsAre(text, 0, i);
      EndsAre(text, i, e);
    }
  }

  /** Whatever whitespace surrounds it and whatever the result held, an encoded text is decoded to its bytes. */
  lemma RoundTrip(data: seq<byte>, padded: bool, lead: string, trail: string)
    requires AllSpace(lead) && AllSpace(trail)
    ensures Accepts(lead + Encoded(data, padded) + trail)
    ensures Bytes(Word(lead + Encoded(data, padded) + trail)) == data
  {
    EncodedDecodes(data, padded);
    WordOf(lead, Encoded(data, padded), trail);
  }

  /** One character more than a padded text, and it is no longer valid. */
  lemma {:induction false} OneMoreIsInvalid(data: seq<byte>, c: char)
    ensures !Valid(Encoded(data, true) + [c])
    decreases |data|
  {
    hide Letter, Sextet0, Sextet1, Sextet2, Sextet3, Valid;
    var t := Encoded(data, true) + [c];
    GroupValid(t);
    if |data| >= 3 {
      var x, y, z, rest := data[0], data[1], data[2], Encoded(data[3..], true) + [c];
      assert t == [Letter(Sextet0(x)), Letter(Sextet1(x, y)), Letter(Sextet2(y, z)), Letter(Sextet3(z))] + rest;
      GroupDecodes(Sextet0(x), Sextet1(x, y), Sextet2(y, z), Sextet3(z), rest);
      OneMoreIsInvalid(data[3..], c);
    }
  }

  /** Behind a padded text exactly the six whitespace characters are accepted. */
  lemma SpaceBehind(data: seq<byte>, c: char)
    ensures Accepts(Encoded(data, true) + [c]) <==>
            c == ' ' || c == '\t' || c == '\n' || c == '\r' || c == 11 as char || c == 12 as char
  {
    hide Encoded, Valid, Bytes, WordEnd, SpaceEnd;
    var enc := Encoded(data, true);
    var text := enc + [c];
    if IsSpace(c) {
      RoundTrip(data, true, "", [c]);
      assert "" + enc + [c] == text;
    } else {
      EncodedDecodes(data, true);
      WordOf("", text, "");
      assert "" + text + "" == text;
      OneMoreIsInvalid(data, c);
    }
  }

  /** RFC 4648, section 10. */
  lemma EncodedFoo()
    ensures Encoded([102], true) == "Zg==" && Encoded([102, 111], true) == "Zm8="
    ensures Encoded([102, 111, 111], true) == "Zm9v"
  {
    SextetsOfFoo();
    LettersOfFoo();
    hide Sextet0, Sextet1, Sextet2, Sextet3, Letter;
  }

  lemma SextetsOfFoo()
    ensures Sextet0(102) == 25 && Sextet1(102, 0) == 32 && Sextet1(102, 111) == 38
    ensures Sextet2(111, 0) == 60 && Sextet2(111, 111) == 61 && Sextet3(111) == 47
  {
  }

  lemma LettersOfFoo()
    ensures Letter(25) == 'Z' && Letter(32) == 'g' && Letter(38) == 'm'
    ensures Letter(60) == '8' && Letter(61) == '9' && Letter(47) == 'v'
  {
    UpperAt(25);
    LowerAt(6);
    LowerAt(12);
    LowerAt(21);
    OtherAt(8);
    OtherAt(9);
  }

  lemma GroupEncodes(t: string, data: seq<byte>)
    requires |t| == 4 && forall i :: 0 <= i < 4 ==> InAlphabet(t[i])
    requires |data| >= 3 && data[0] == First(Place(t[0]), Place(t[1])) && data[1] == Second(Place(t[1]), Place(t[2]))
    requires data[2] == Third(Place(t[2]), Place(t[3]))
    ensures Group(data, true) == t
  {
    hide Letter, Place, First, Second, Third, Sextet0, Sextet1, Sextet2, Sextet3;
    LetterOfPlace(t[0]);
    LetterOfPlace(t[1]);
    LetterOfPlace(t[2]);
    LetterOfPlace(t[3]);
    SplitOfJoin(Place(t[0]), Place(t[1]), Place(t[2]), Place(t[3]));
  }

  /** And encoding undoes decoding on whole groups of letters. */
  lemma {:induction false} DecodedEncodes(t: string)
    requires |t| % 4 == 0 && forall i :: 0 <= i < |t| ==> InAlphabet(t[i])
    ensures Encoded(Bytes(t), true) == t
  {
    if t == [] {
      NoLetters();
    } else {
      hide Place, First, Second, Third, Group, Bytes;
      DecodedEncodes(t[4..]);
      GroupBytes(t);
      assert Bytes(t)[3..] == Bytes(t[4..]);
      GroupEncodes(t[..4], Bytes(t));
      assert t[..4] + t[4..] == t;
    }
  }
}
