/**
 The compressor's LZ77 side: hash buckets of earlier positions, the search for the longest match,
 and one step of lazy matching.
 */
module Matcher {
  import opened Bits

  const BUCKETS: nat := 16384
  const MAX_MATCH: nat := 258
  const WINDOW: nat := 32768

  /** What the compressor emits for one step: a byte as it is, or a copy of earlier output. */
  datatype Token = Literal(b: byte) | Copy(length: nat, distance: nat)

  datatype Match = NoMatch | Found(pos: nat, length: nat)

  /** The 32-bit hash of three bytes; arithmetic wraps. */
  function Hash3(b0: byte, b1: byte, b2: byte): bv32 {
    var h := (b0 as bv32) + ((b1 as bv32) << 8) + ((b2 as bv32) << 16);
    var h1 := h ^ (h << 3);
    var h2 := h1 + (h1 >> 5);
    var h3 := h2 ^ (h2 << 4);
    var h4 := h3 + (h3 >> 17);
    var h5 := h4 ^ (h4 << 25);
    h5 + (h5 >> 6)
  }

  /** The bucket of the three bytes at position i. */
  function Bucket(data: seq<byte>, i: nat): (h: nat)
    requires i + 3 <= |data|
    ensures h < BUCKETS
  {
    (Hash3(data[i], data[i + 1], data[i + 2]) as nat) % BUCKETS
  }

  /** Some values: of one bit in each byte, of all bits, and of "abc". */
  lemma HashValues()
    ensures Hash3(1, 0, 0) == 0x32C8009B && Hash3(0, 1, 0) == 0x9240A03F && Hash3(0, 0, 1) == 0x9F103F6F
    ensures Hash3(255, 255, 255) == 0xD6031BBE && Hash3(97, 98, 99) == 0x04EAF783
  {
  }

  /** The bucket is the low fourteen bits. */
  lemma BucketOfAbc()
    ensures Bucket([97, 98, 99], 0) == 0x3783
  {
    hide Hash3;
    HashValues();
  }

  // ---------- match length ----------

  /** How far the bytes at p and at i agree, given that they agree for the first k; at most MAX_MATCH. */
  function AgreeFrom(data: seq<byte>, p: nat, i: nat, k: nat): (r: nat)
    requires p <= i && i + k <= |data| && k <= MAX_MATCH
    ensures k <= r <= MAX_MATCH && i + r <= |data|
    ensures forall y :: i + k <= y < i + r ==> data[y - (i - p)] == data[y]
    ensures r < MAX_MATCH && i + r < |data| ==> data[p + r] != data[i + r]
    decreases |data| - i - k
  {
    if i + k < |data| && k < MAX_MATCH && data[p + k] == data[i + k] then AgreeFrom(data, p, i, k + 1) else k
  }

  function MatchLength(data: seq<byte>, p: nat, i: nat): (r: nat)
    requires p <= i <= |data|
    ensures r <= MAX_MATCH && i + r <= |data|
  {
    AgreeFrom(data, p, i, 0)
  }

  /** The bytes before it agree; it ends at 258, at the end of the data or where two bytes differ. */
  lemma MatchLengthIs(data: seq<byte>, p: nat, i: nat)
    requires p <= i <= |data|
    ensures var r := MatchLength(data, p, i);
            r <= 258 && i + r <= |data| && data[p..p + r] == data[i..i + r] &&
            (r == 258 || i + r == |data| || data[p + r] != data[i + r])
  {
    var r := MatchLength(data, p, i);
    var earlier, here := data[p..p + r], data[i..i + r];
    forall y | 0 <= y < r ensures earlier[y] == here[y] {
      var z := i + y;
      assert data[z - (i - p)] == data[z];
    }
  }

  method CountMatch(data: seq<byte>, a: nat, b: nat, limit: nat) returns (i: nat)
    requires a <= b && b + limit == |data|
    ensures i == MatchLength(data, a, b)
  {
    i := 0;
    while i < limit && i < MAX_MATCH
      invariant i <= limit && i <= MAX_MATCH
      invariant AgreeFrom(data, a, b, i) == MatchLength(data, a, b)
    {
      if data[a + i] != data[b + i] {
        break;
      }
      i := i + 1;
    }
  }

  // ---------- the buckets ----------

  /** A bucket holds strictly increasing positions before i with its hash, at most 2 * quality of them. */
  ghost predicate GoodBucket(data: seq<byte>, bucket: seq<nat>, h: nat, i: nat, quality: nat) {
    && |bucket| <= 2 * quality
    && (forall k, l :: 0 <= k < l < |bucket| ==> bucket[k] < bucket[l])
    && (forall k :: 0 <= k < |bucket| ==> bucket[k] < i && bucket[k] + 3 <= |data| && Bucket(data, bucket[k]) == h)
  }

  ghost predicate GoodTable(data: seq<byte>, table: seq<seq<nat>>, i: nat, quality: nat) {
    && |table| == BUCKETS
    && forall h :: 0 <= h < BUCKETS ==> GoodBucket(data, table[h], h, i, quality)
  }

  /** A full bucket loses its older half before the new position is appended. */
  function Inserted(bucket: seq<nat>, i: nat, quality: nat): seq<nat> {
    (if |bucket| == 2 * quality then bucket[quality..] else bucket) + [i]
  }

  function Insert(data: seq<byte>, table: seq<seq<nat>>, i: nat, quality: nat): seq<seq<nat>>
    requires |table| == BUCKETS && i + 3 <= |data|
  {
    table[Bucket(data, i) := Inserted(table[Bucket(data, i)], i, quality)]
  }

  lemma EmptyTableIsGood(data: seq<byte>, table: seq<seq<nat>>, quality: nat)
    requires |table| == BUCKETS && forall h :: 0 <= h < BUCKETS ==> table[h] == []
    ensures GoodTable(data, table, 0, quality)
  {
  }

  /** Every step of the compressor keeps every bucket good. */
  lemma InsertKeepsTable(data: seq<byte>, table: seq<seq<nat>>, i: nat, quality: nat)
    requires GoodTable(data, table, i, quality) && i + 3 <= |data| && quality >= 1
    ensures GoodTable(data, Insert(data, table, i, quality), i + 1, quality)
  {
    hide Bucket;
    var h := Bucket(data, i);
    var table' := Insert(data, table, i, quality);
    var old_, new_ := table[h], table'[h];
    assert GoodBucket(data, old_, h, i, quality);
    assert |new_| <= 2 * quality;
    assert forall k :: 0 <= k < |new_| - 1 ==> new_[k] == old_[k + (|old_| + 1 - |new_|)];
    assert GoodBucket(data, new_, h, i + 1, quality);
    forall g | 0 <= g < BUCKETS
      ensures GoodBucket(data, table'[g], g, i + 1, quality)
    {
      assert GoodBucket(data, table[g], g, i, quality);
    }
  }

  lemma TableStaysGood(data: seq<byte>, table: seq<seq<nat>>, i: nat, i': nat, quality: nat)
    requires GoodTable(data, table, i, quality) && i <= i'
    ensures GoodTable(data, table, i', quality)
  {
    forall g | 0 <= g < BUCKETS
      ensures GoodBucket(data, table[g], g, i', quality)
    {
      assert GoodBucket(data, table[g], g, i, quality);
    }
  }

  // ---------- the longest match ----------

  /** p is close enough to i and agrees with it for at least three bytes. */
  predicate Candidate(data: seq<byte>, p: nat, i: nat)
    requires i <= |data|
  {
    p < i && i - p < WINDOW && MatchLength(data, p, i) >= 3
  }

  /** The longest match the bucket offers at i; of equally long ones the last, which is the nearest. */
  function Best(data: seq<byte>, bucket: seq<nat>, i: nat): (m: Match)
    requires i <= |data| && forall k :: 0 <= k < |bucket| ==> bucket[k] < i
    ensures m.Found? ==> Candidate(data, m.pos, i) && m.length == MatchLength(data, m.pos, i)
  {
    if bucket == [] then NoMatch else
    var p, m := bucket[|bucket| - 1], Best(data, bucket[..|bucket| - 1], i);
    if Candidate(data, p, i) && (m.Found? ==> MatchLength(data, p, i) >= m.length)
    then Found(p, MatchLength(data, p, i))
    else m
  }

  /** Nothing found means no candidate; what is found is in the bucket and no candidate is longer. */
  lemma {:induction false} BestIsLongest(data: seq<byte>, bucket: seq<nat>, i: nat)
    requires i <= |data| && forall k :: 0 <= k < |bucket| ==> bucket[k] < i
    ensures var m := Best(data, bucket, i);
            && (m.NoMatch? <==> forall k :: 0 <= k < |bucket| ==> !Candidate(data, bucket[k], i))
            && (m.Found? ==> m.pos in bucket)
            && (m.Found? ==> forall k :: 0 <= k < |bucket| && Candidate(data, bucket[k], i) ==>
                               MatchLength(data, bucket[k], i) <= m.length)
  {
    hide Candidate, MatchLength;
    if bucket != [] {
      var shorter := bucket[..|bucket| - 1];
      BestIsLongest(data, shorter, i);
      assert forall k :: 0 <= k < |shorter| ==> bucket[k] == shorter[k];
    }
  }

  /** Of equally long candidates it is the nearest. */
  lemma {:induction false} BestIsNearest(data: seq<byte>, bucket: seq<nat>, i: nat)
    requires i <= |data| && forall k :: 0 <= k < |bucket| ==> bucket[k] < i
    requires forall k, l :: 0 <= k < l < |bucket| ==> bucket[k] < bucket[l]
    ensures var m := Best(data, bucket, i);
            m.Found? ==> forall k :: 0 <= k < |bucket| && bucket[k] > m.pos && Candidate(data, bucket[k], i) ==>
                           MatchLength(data, bucket[k], i) < m.length
  {
    hide Candidate, MatchLength;
    if bucket != [] {
      var shorter := bucket[..|bucket| - 1];
      BestIsNearest(data, shorter, i);
      BestIsLongest(data, shorter, i);
      assert forall k :: 0 <= k < |shorter| ==> bucket[k] == shorter[k];
    }
  }

  method FindBest(data: seq<byte>, bucket: seq<nat>, i: nat) returns (m: Match)
    requires i <= |data| && forall k :: 0 <= k < |bucket| ==> bucket[k] < i
    ensures m == Best(data, bucket, i)
  {
    var best := 3;
    m := NoMatch;
    for j := 0 to |bucket|
      invariant m == Best(data, bucket[..j], i)
      invariant best == if m.Found? then m.length else 3
    {
      assert bucket[..j + 1][..j] == bucket[..j];
      if bucket[j] > i - 32768 {
        var d := CountMatch(data, bucket[j], i, |data| - i);
        if d >= best {
          best := d;
          m := Found(bucket[j], d);
        }
      }
    }
    assert bucket[..|bucket|] == bucket;
  }

  /** The next position has a match longer than best. */
  ghost predicate NextIsBetter(data: seq<byte>, bucket: seq<nat>, i: nat, best: nat)
    requires i < |data| && forall k :: 0 <= k < |bucket| ==> bucket[k] <= i
  {
    exists k :: 0 <= k < |bucket| && i + 1 - bucket[k] < WINDOW && MatchLength(data, bucket[k], i + 1) > best
  }

  method CheckNext(data: seq<byte>, bucket: seq<nat>, i: nat, best: nat) returns (better: bool)
    requires i < |data| && forall k :: 0 <= k < |bucket| ==> bucket[k] <= i
    ensures better == NextIsBetter(data, bucket, i, best)
  {
    better := false;
    for j := 0 to |bucket|
      invariant !better
      invariant forall k :: 0 <= k < j ==>
                  !(i + 1 - bucket[k] < WINDOW && MatchLength(data, bucket[k], i + 1) > best)
    {
      if bucket[j] > i - 32767 {
        var e := CountMatch(data, bucket[j], i + 1, |data| - i - 1);
        if e > best {
          better := true;
          break;
        }
      }
    }
  }

  // ---------- the whole token stream ----------

  /** The token for position i: the best match, unless there is none or the next position has a longer one. */
  ghost function Choice(data: seq<byte>, table: seq<seq<nat>>, i: nat, quality: nat): (t: Token)
    requires i + 3 < |data| && quality >= 1 && GoodTable(data, table, i, quality)
  {
    InsertKeepsTable(data, table, i, quality);
    assert GoodBucket(data, table[Bucket(data, i)], Bucket(data, i), i, quality);
    var m := Best(data, table[Bucket(data, i)], i);
    var next := Insert(data, table, i, quality)[Bucket(data, i + 1)];
    assert GoodBucket(data, next, Bucket(data, i + 1), i + 1, quality);
    if m.Found? && !NextIsBetter(data, next, i, m.length) then Copy(m.length, i - m.pos) else Literal(data[i])
  }

  function Span(t: Token): nat {
    if t.Literal? then 1 else t.length
  }

  /** A token that reproduces the data at i from the data before i, within the limits of the format. */
  ghost predicate Reproduces(data: seq<byte>, i: nat, t: Token) {
    match t
    case Literal(b) => i < |data| && data[i] == b
    case Copy(length, distance) =>
      && 3 <= length <= MAX_MATCH && 1 <= distance <= 32767 && distance <= i && i + length <= |data|
      && forall y :: i <= y < i + length ==> data[y - distance] == data[y]
  }

  lemma ChoiceReproduces(data: seq<byte>, table: seq<seq<nat>>, i: nat, quality: nat)
    requires i + 3 < |data| && quality >= 1 && GoodTable(data, table, i, quality)
    ensures Reproduces(data, i, Choice(data, table, i, quality))
  {
    hide Best, Insert, Bucket, NextIsBetter;
    assert GoodBucket(data, table[Bucket(data, i)], Bucket(data, i), i, quality);
  }

  /** Of the positions in the bucket at most 32767 back, the nearest of those with the longest match at i. */
  ghost predicate IsLongest(data: seq<byte>, bucket: seq<nat>, p: nat, i: nat)
    requires i <= |data|
  {
    && p in bucket && p < i && i - p <= 32767 && MatchLength(data, p, i) >= 3
    && forall q :: q in bucket && q < i && i - q <= 32767 ==>
         MatchLength(data, q, i) < MatchLength(data, p, i) ||
         (MatchLength(data, q, i) == MatchLength(data, p, i) && q <= p)
  }

  /** A position in the bucket of the next position has a match there longer than n. */
  ghost predicate Overtaken(data: seq<byte>, bucket: seq<nat>, i: nat, n: nat)
    requires i < |data|
  {
    exists q :: q in bucket && q <= i && i + 1 - q <= 32767 && MatchLength(data, q, i + 1) > n
  }

  /** What the token at i must be: a copy from the nearest longest match, if there is one and it is not overtaken. */
  ghost predicate IsChosen(data: seq<byte>, here: seq<nat>, next: seq<nat>, i: nat, t: Token)
    requires i < |data|
  {
    match t
    case Literal(b) =>
      b == data[i] && forall p :: IsLongest(data, here, p, i) ==> Overtaken(data, next, i, MatchLength(data, p, i))
    case Copy(length, distance) =>
      && distance <= i && IsLongest(data, here, i - distance, i) && length == MatchLength(data, i - distance, i)
      && !Overtaken(data, next, i, length)
  }

  /** A match the bucket offers is the best one exactly if it is the nearest longest. */
  lemma BestIs(data: seq<byte>, bucket: seq<nat>, i: nat, p: nat)
    requires i <= |data| && forall k :: 0 <= k < |bucket| ==> bucket[k] < i
    requires forall k, l :: 0 <= k < l < |bucket| ==> bucket[k] < bucket[l]
    ensures IsLongest(data, bucket, p, i) <==>
            Best(data, bucket, i) == Found(p, if p < i then MatchLength(data, p, i) else 0)
  {
    hide Best, MatchLength;
    BestIsLongest(data, bucket, i);
    BestIsNearest(data, bucket, i);
  }

  /** Exactly when a copy is chosen, and which. */
  lemma ChoiceIs(data: seq<byte>, table: seq<seq<nat>>, i: nat, quality: nat)
    requires i + 3 < |data| && quality >= 1 && GoodTable(data, table, i, quality)
    ensures IsChosen(data, table[Bucket(data, i)], Insert(data, table, i, quality)[Bucket(data, i + 1)], i,
                     Choice(data, table, i, quality))
  {
    hide Best, MatchLength, Bucket, Insert, NextIsBetter, Overtaken;
    InsertKeepsTable(data, table, i, quality);
    var here, next := table[Bucket(data, i)], Insert(data, table, i, quality)[Bucket(data, i + 1)];
    assert GoodBucket(data, here, Bucket(data, i), i, quality);
    assert GoodBucket(data, next, Bucket(data, i + 1), i + 1, quality);
    var m := Best(data, here, i);
    forall p | IsLongest(data, here, p, i) ensures m == Found(p, MatchLength(data, p, i)) {
      BestIs(data, here, i, p);
    }
    if m.Found? {
      BestIs(data, here, i, m.pos);
      OvertakenIs(data, next, i, m.length);
    }
  }

  lemma OvertakenIs(data: seq<byte>, bucket: seq<nat>, i: nat, n: nat)
    requires i < |data| && forall k :: 0 <= k < |bucket| ==> bucket[k] <= i
    ensures NextIsBetter(data, bucket, i, n) <==> Overtaken(data, bucket, i, n)
  {
    hide MatchLength;
    if NextIsBetter(data, bucket, i, n) {
      var k :| 0 <= k < |bucket| && i + 1 - bucket[k] < WINDOW && MatchLength(data, bucket[k], i + 1) > n;
      assert bucket[k] in bucket;
    }
    if Overtaken(data, bucket, i, n) {
      var q :| q in bucket && q <= i && i + 1 - q <= 32767 && MatchLength(data, q, i + 1) > n;
      var k :| 0 <= k < |bucket| && bucket[k] == q;
      assert MatchLength(data, bucket[k], i + 1) > n;
    }
  }

  /** After the chosen token the buckets are good for the position behind it. */
  lemma StepIsGood(data: seq<byte>, table: seq<seq<nat>>, i: nat, quality: nat)
    requires i + 3 < |data| && quality >= 1 && GoodTable(data, table, i, quality)
    ensures var t := Choice(data, table, i, quality);
            && Encodable(t) && i < i + Span(t) <= |data| && Reproduces(data, i, t)
            && GoodTable(data, Insert(data, table, i, quality), i + Span(t), quality)
  {
    hide Insert, Choice, GoodBucket, Bucket;
    var t := Choice(data, table, i, quality);
    ChoiceReproduces(data, table, i, quality);
    InsertKeepsTable(data, table, i, quality);
    TableStaysGood(data, Insert(data, table, i, quality), i + 1, i + Span(t), quality);
  }

  /** The tokens the format can express. */
  predicate Encodable(t: Token) {
    t.Copy? ==> 3 <= t.length <= MAX_MATCH && 1 <= t.distance <= 32767
  }

  ghost function Literals(data: seq<byte>, i: nat): (ts: seq<Token>)
    requires i <= |data|
    ensures forall t :: t in ts ==> Encodable(t)
    decreases |data| - i
  {
    if i == |data| then [] else [Literal(data[i])] + Literals(data, i + 1)
  }

  /** The tokens from position i on, given the buckets reached there. */
  ghost function Tokens(data: seq<byte>, table: seq<seq<nat>>, i: nat, quality: nat): (ts: seq<Token>)
    requires i <= |data| && quality >= 1 && GoodTable(data, table, i, quality)
    ensures forall t :: t in ts ==> Encodable(t)
    decreases |data| - i
  {
    if i + 3 < |data| then
      hide Insert, Choice, GoodBucket, Bucket, Reproduces;
      StepIsGood(data, table, i, quality);
      var t := Choice(data, table, i, quality);
      [t] + Tokens(data, Insert(data, table, i, quality), i + Span(t), quality)
    else Literals(data, i)
  }

  /** The tokens, laid end to end from position i, reproduce the data up to its end. */
  ghost predicate Covers(data: seq<byte>, i: nat, ts: seq<Token>)
    decreases |ts|
  {
    if ts == [] then i == |data| else Reproduces(data, i, ts[0]) && Covers(data, i + Span(ts[0]), ts[1..])
  }

  lemma CoversCons(data: seq<byte>, i: nat, t: Token, ts: seq<Token>)
    requires Reproduces(data, i, t) && Covers(data, i + Span(t), ts)
    ensures Covers(data, i, [t] + ts)
  {
    assert ([t] + ts)[1..] == ts;
  }

  lemma {:induction false} LiteralsCover(data: seq<byte>, i: nat)
    requires i <= |data|
    ensures Covers(data, i, Literals(data, i))
    decreases |data| - i
  {
    if i < |data| {
      LiteralsCover(data, i + 1);
    }
  }

  /** Whatever the buckets hold, the tokens chosen reproduce the rest of the data. */
  lemma {:induction false} TokensCover(data: seq<byte>, table: seq<seq<nat>>, i: nat, quality: nat)
    requires i <= |data| && quality >= 1 && GoodTable(data, table, i, quality)
    ensures Covers(data, i, Tokens(data, table, i, quality))
    decreases |data| - i
  {
    hide Insert, Choice, GoodBucket, Reproduces, Covers;
    if i + 3 < |data| {
      var t := Choice(data, table, i, quality);
      var table' := Insert(data, table, i, quality);
      StepIsGood(data, table, i, quality);
      TokensCover(data, table', i + Span(t), quality);
      CoversCons(data, i, t, Tokens(data, table', i + Span(t), quality));
    } else {
      LiteralsCover(data, i);
    }
  }

  /** One step of the compressor: chooses the token for position i and records the position in its bucket. */
  method Step(data: seq<byte>, table: array<seq<nat>>, i: nat, quality: nat) returns (t: Token)
    requires i + 3 < |data| && quality >= 1 && GoodTable(data, table[..], i, quality)
    modifies table
    ensures t == Choice(data, old(table[..]), i, quality)
    ensures table[..] == Insert(data, old(table[..]), i, quality)
    ensures IsChosen(data, old(table[Bucket(data, i)]), table[Bucket(data, i + 1)], i, t)
  {
    hide Bucket, Best, IsChosen;
    ghost var before := table[..];
    InsertKeepsTable(data, before, i, quality);
    ChoiceIs(data, before, i, quality);
    var h := Bucket(data, i);
    assert GoodBucket(data, before[h], h, i, quality);
    var m := FindBest(data, table[h], i);
    if |table[h]| == 2 * quality {
      table[h] := table[h][quality..];
    }
    table[h] := table[h] + [i];
    assert table[..] == Insert(data, before, i, quality);
    if m.Found? {
      h := Bucket(data, i + 1);
      assert GoodBucket(data, table[..][h], h, i + 1, quality);
      var better := CheckNext(data, table[h], i, m.length);
      if better {
        m := NoMatch;
      }
    }
    t := if m.Found? then Copy(m.length, i - m.pos) else Literal(data[i]);
  }
}
