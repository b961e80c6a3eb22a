/**
 The tokens of a whole compression, told without the hash table: which earlier positions a bucket still holds, which
 token each position gets, and what a run of equal bytes becomes.
 */
module TokenStream {
  import opened Bits
  import opened Matcher
  import Zlib

  // ---------- what a bucket holds ----------

  /** How many positions are left in a bucket that n have been put into. */
  function Kept(n: nat, quality: nat): (k: nat)
    requires quality >= 1
    ensures k <= n && k <= 2 * quality && (n >= quality ==> k >= quality)
  {
    if n <= 2 * quality then n else quality + 1 + (n - 2 * quality - 1) % quality
  }

  /** The newest of the positions put into a bucket. */
  function Recent(history: seq<nat>, quality: nat): seq<nat>
    requires quality >= 1
  {
    history[|history| - Kept(|history|, quality)..]
  }

  lemma KeptStep(n: nat, quality: nat)
    requires quality >= 1
    ensures Kept(n + 1, quality) == if Kept(n, quality) == 2 * quality then quality + 1 else Kept(n, quality) + 1
  {
    if n > 2 * quality {
      var m := n - 2 * quality - 1;
      NextRemainder(m, quality);
    }
  }

  lemma NextRemainder(m: nat, q: nat)
    requires q >= 1
    ensures (m + 1) % q == if m % q == q - 1 then 0 else m % q + 1
  {
    var d, r := m / q, m % q;
    assert m == d * q + r;
    if r == q - 1 {
      assert m + 1 == (d + 1) * q;
      Remainder(m + 1, d + 1, 0, q);
    } else {
      Remainder(m + 1, d, r + 1, q);
    }
  }

  lemma Remainder(n: nat, d: nat, r: nat, q: nat)
    requires r < q && n == d * q + r
    ensures n % q == r
  {
    var e: int := n / q - d;
    assert e * q == r - n % q;
    assert e >= 1 ==> e * q >= q;
    assert e <= -1 ==> e * q <= -(q as int);
  }

  /** A bucket that holds the newest of the positions put into it still does after the next one. */
  lemma InsertedIsRecent(history: seq<nat>, i: nat, quality: nat)
    requires quality >= 1
    ensures Inserted(Recent(history, quality), i, quality) == Recent(history + [i], quality)
  {
    hide Kept;
    KeptStep(|history|, quality);
  }

  /** The positions put into bucket h, of those given. */
  function Recorded(data: seq<byte>, starts: seq<nat>, h: nat): seq<nat> {
    if starts == [] then [] else
    var front, s := starts[..|starts| - 1], starts[|starts| - 1];
    Recorded(data, front, h) + if s + 3 <= |data| && Bucket(data, s) == h then [s] else []
  }

  /** Every bucket holds the newest of the positions put into it. */
  ghost predicate Remembers(data: seq<byte>, table: seq<seq<nat>>, starts: seq<nat>, quality: nat)
    requires quality >= 1
  {
    |table| == BUCKETS && forall h :: 0 <= h < BUCKETS ==> table[h] == Recent(Recorded(data, starts, h), quality)
  }

  lemma EmptyRemembers(data: seq<byte>, quality: nat)
    requires quality >= 1
    ensures Remembers(data, Zlib.EmptyTable(), [], quality)
  {
  }

  lemma RecordedGrows(data: seq<byte>, starts: seq<nat>, i: nat, h: nat)
    requires i + 3 <= |data|
    ensures Recorded(data, starts + [i], h) == Recorded(data, starts, h) + if Bucket(data, i) == h then [i] else []
  {
    hide Bucket;
    Parts(starts, [i]);
  }

  lemma InsertRemembers(data: seq<byte>, table: seq<seq<nat>>, starts: seq<nat>, i: nat, quality: nat)
    requires quality >= 1 && i + 3 <= |data| && Remembers(data, table, starts, quality)
    ensures Remembers(data, Insert(data, table, i, quality), starts + [i], quality)
  {
    hide Bucket, Recorded, Recent, Inserted;
    forall h | 0 <= h < BUCKETS
      ensures Insert(data, table, i, quality)[h] == Recent(Recorded(data, starts + [i], h), quality)
    {
      RecordedGrows(data, starts, i, h);
      var history := Recorded(data, starts, h);
      if h == Bucket(data, i) {
        InsertedIsRecent(history, i, quality);
      } else {
        assert history + [] == history;
      }
    }
  }

  // ---------- every token of a run ----------

  /** Where the first k tokens begin, laid end to end from i on. */
  function Starts(ts: seq<Token>, i: nat, k: nat): seq<nat>
    requires k <= |ts|
    decreases k
  {
    if k == 0 then [] else [i] + Starts(ts[1..], i + Span(ts[0]), k - 1)
  }

  /** Where the k-th token begins. */
  function StartOf(ts: seq<Token>, i: nat, k: nat): nat
    requires k <= |ts|
    decreases k
  {
    if k == 0 then i else StartOf(ts[1..], i + Span(ts[0]), k - 1)
  }

  /**
   What token t at i must be when the tokens before it begin at the given starts: a literal at the end of the data,
   and otherwise chosen from what the buckets have kept.
   */
  ghost predicate IsTokenAt(data: seq<byte>, starts: seq<nat>, i: nat, quality: nat, t: Token)
    requires quality >= 1 && i < |data|
  {
    if i + 3 >= |data| then t == Literal(data[i])
    else
      var here := Recent(Recorded(data, starts, Bucket(data, i)), quality);
      var next := Recent(Recorded(data, starts + [i], Bucket(data, i + 1)), quality);
      IsChosen(data, here, next, i, t)
  }

  lemma FirstTokenIs(data: seq<byte>, table: seq<seq<nat>>, starts: seq<nat>, i: nat, quality: nat)
    requires quality >= 1 && i + 3 < |data| && GoodTable(data, table, i, quality)
    requires Remembers(data, table, starts, quality)
    ensures IsTokenAt(data, starts, i, quality, Choice(data, table, i, quality))
  {
    hide Bucket, Recorded, Recent, Insert, Choice, IsChosen, GoodTable;
    ChoiceIs(data, table, i, quality);
    InsertRemembers(data, table, starts, i, quality);
  }

  lemma LiteralsFront(data: seq<byte>, i: nat)
    requires i < |data|
    ensures Literals(data, i) == [Literal(data[i])] + Literals(data, i + 1)
    ensures Literals(data, i)[1..] == Literals(data, i + 1)
  {
  }

  lemma {:induction false} LiteralsAre(data: seq<byte>, i: nat, k: nat)
    requires i + k <= |data|
    ensures |Literals(data, i)| == |data| - i && StartOf(Literals(data, i), i, k) == i + k
    ensures k < |data| - i ==> Literals(data, i)[k] == Literal(data[i + k])
    decreases |data| - i
  {
    if i < |data| {
      hide Literals;
      LiteralsFront(data, i);
      LiteralsAre(data, i + 1, if k == 0 then 0 else k - 1);
    }
  }

  lemma NoStarts(ts: seq<Token>, i: nat)
    ensures Starts(ts, i, 0) == [] && StartOf(ts, i, 0) == i
  {
  }

  lemma StartsFront(t: Token, more: seq<Token>, i: nat, k: nat)
    requires 1 <= k <= 1 + |more|
    ensures Starts([t] + more, i, k) == [i] + Starts(more, i + Span(t), k - 1)
    ensures StartOf([t] + more, i, k) == StartOf(more, i + Span(t), k - 1)
  {
    Parts([t], more);
  }

  lemma {:induction false} TokensAre(data: seq<byte>, table: seq<seq<nat>>, starts: seq<nat>, i: nat, quality: nat,
                                     k: nat)
    requires quality >= 1 && i <= |data| && GoodTable(data, table, i, quality)
    requires Remembers(data, table, starts, quality) && k < |Tokens(data, table, i, quality)|
    ensures var ts := Tokens(data, table, i, quality);
            var pos := StartOf(ts, i, k);
            pos < |data| && IsTokenAt(data, starts + Starts(ts, i, k), pos, quality, ts[k])
    decreases k
  {
    hide Insert, Choice, GoodBucket, Remembers, IsTokenAt, Starts, StartOf;
    var ts := Tokens(data, table, i, quality);
    if i + 3 >= |data| {
      LiteralsAre(data, i, 0);
      LiteralsAre(data, i, k);
      EndIs(data, starts + Starts(ts, i, k), i + k, quality);
    } else {
      var t, table' := Choice(data, table, i, quality), Insert(data, table, i, quality);
      StepIsGood(data, table, i, quality);
      if k == 0 {
        NoStarts(ts, i);
        assert starts + [] == starts;
        FirstTokenIs(data, table, starts, i, quality);
      } else {
        InsertRemembers(data, table, starts, i, quality);
        var more := Tokens(data, table', i + Span(t), quality);
        assert ts == [t] + more;
        TokensAre(data, table', starts + [i], i + Span(t), quality, k - 1);
        StartsFront(t, more, i, k);
        Reassociate(starts, [i], Starts(more, i + Span(t), k - 1));
      }
    }
  }

  lemma EndIs(data: seq<byte>, starts: seq<nat>, i: nat, quality: nat)
    requires quality >= 1 && i < |data| <= i + 3
    ensures IsTokenAt(data, starts, i, quality, Literal(data[i]))
  {
  }

  /** For every data and quality, each token of the compressor is the one its position calls for. */
  lemma EveryTokenIs(data: seq<byte>, quality: nat, k: nat)
    requires quality >= 1 && k < |Zlib.AllTokens(data, quality)|
    ensures var ts := Zlib.AllTokens(data, quality);
            var i := StartOf(ts, 0, k);
            i < |data| && IsTokenAt(data, Starts(ts, 0, k), i, quality, ts[k])
  {
    hide Tokens, Remembers, GoodTable, IsTokenAt;
    EmptyTableIsGood(data, Zlib.EmptyTable(), quality);
    EmptyRemembers(data, quality);
    TokensAre(data, Zlib.EmptyTable(), [], 0, quality, k);
    var starts := Starts(Zlib.AllTokens(data, quality), 0, k);
    assert [] + starts == starts;
  }

  // ---------- a run of equal bytes ----------

  function Equal(n: nat, b: byte): (data: seq<byte>)
    ensures |data| == n && forall i :: 0 <= i < n ==> data[i] == b
  {
    Repeat(n, b)
  }

  lemma EqualMatch(n: nat, b: byte, p: nat, i: nat)
    requires p <= i <= n
    ensures MatchLength(Equal(n, b), p, i) == Min(258, n - i)
  {
    hide MatchLength, Equal;
    MatchLengthIs(Equal(n, b), p, i);
  }

  lemma EqualBucket(n: nat, b: byte, i: nat, j: nat)
    requires i + 3 <= n && j + 3 <= n
    ensures Bucket(Equal(n, b), i) == Bucket(Equal(n, b), j)
  {
    hide Hash3, Equal;
  }

  /** The tokens from position i on, when the last one began that far back: copies of 258 bytes, and what is left. */
  function RunTokens(n: nat, b: byte, i: nat, back: nat): seq<Token>
    requires i <= n
    decreases n - i
  {
    if i + 3 >= n then Repeat(n - i, Literal(b)) else
    var length := Min(258, n - i);
    [Copy(length, back)] + RunTokens(n, b, i + length, length)
  }

  /** The copy is taken from where the last token began, and never given up, since the next position has no more. */
  lemma EqualChoice(n: nat, b: byte, bucket: seq<nat>, next: seq<nat>, i: nat, t: Token)
    requires i + 3 < n && IsChosen(Equal(n, b), bucket, next, i, t)
    requires bucket != [] && bucket[|bucket| - 1] < i <= bucket[|bucket| - 1] + 258
    requires forall k :: 0 <= k < |bucket| ==> bucket[k] <= bucket[|bucket| - 1]
    ensures t == Copy(Min(258, n - i), i - bucket[|bucket| - 1])
  {
    hide MatchLength, Equal;
    var data, p := Equal(n, b), bucket[|bucket| - 1];
    forall q | 0 <= q <= i
      ensures MatchLength(data, q, i) == Min(258, n - i) && MatchLength(data, q, i + 1) <= Min(258, n - i)
    {
      EqualMatch(n, b, q, i);
      EqualMatch(n, b, q, i + 1);
    }
    assert IsLongest(data, bucket, p, i);
    if t.Copy? {
      assert i - t.distance == p;
    }
  }

  lemma {:induction false} LiteralsOfEqual(n: nat, b: byte, i: nat)
    requires i <= n
    ensures Literals(Equal(n, b), i) == Repeat(n - i, Literal(b))
    decreases n - i
  {
    hide Equal;
    if i < n {
      LiteralsOfEqual(n, b, i + 1);
      assert Repeat(n - i, Literal(b)) == [Literal(b)] + Repeat(n - i - 1, Literal(b));
    }
  }

  lemma {:induction false} EqualFrom(n: nat, b: byte, table: seq<seq<nat>>, i: nat, quality: nat, p: nat)
    requires 1 <= i <= n && n >= 3 && quality >= 1 && GoodTable(Equal(n, b), table, i, quality) && p < i <= p + 258
    requires var bucket := table[Bucket(Equal(n, b), 0)]; bucket != [] && bucket[|bucket| - 1] == p
    ensures Tokens(Equal(n, b), table, i, quality) == RunTokens(n, b, i, i - p)
    decreases n - i
  {
    hide Equal, Bucket, Choice, IsChosen;
    var data := Equal(n, b);
    if i + 3 < n {
      StepIsGood(data, table, i, quality);
      ChoiceIs(data, table, i, quality);
      EqualBucket(n, b, i, 0);
      var t, table' := Choice(data, table, i, quality), Insert(data, table, i, quality);
      var bucket := table[Bucket(data, i)];
      assert GoodBucket(data, bucket, Bucket(data, i), i, quality);
      EqualChoice(n, b, bucket, table'[Bucket(data, i + 1)], i, t);
      EqualFrom(n, b, table', i + Span(t), quality, i);
    } else {
      LiteralsOfEqual(n, b, i);
    }
  }

  /** Of n equal bytes the first is written as it is, and the others are copied, 258 at a time. */
  lemma EqualBytes(n: nat, b: byte, quality: nat)
    requires n >= 4 && quality >= 1
    ensures Zlib.AllTokens(Equal(n, b), quality) == [Literal(b)] + RunTokens(n, b, 1, 1)
  {
    hide Equal, Bucket, Choice, IsChosen;
    var data, table := Equal(n, b), Zlib.EmptyTable();
    EmptyTableIsGood(data, table, quality);
    StepIsGood(data, table, 0, quality);
    ChoiceIs(data, table, 0, quality);
    var t, table' := Choice(data, table, 0, quality), Insert(data, table, 0, quality);
    NothingToCopy(data, table[Bucket(data, 0)], table'[Bucket(data, 1)], t);
    EqualFrom(n, b, table', 1, quality, 0);
  }

  lemma NothingToCopy(data: seq<byte>, here: seq<nat>, next: seq<nat>, t: Token)
    requires |data| > 0 && here == [] && IsChosen(data, here, next, 0, t)
    ensures t == Literal(data[0])
  {
  }

  lemma RunStep(n: nat, b: byte, i: nat, back: nat)
    requires i <= n
    ensures i == n ==> RunTokens(n, b, i, back) == []
    ensures i + 3 < n ==>
              var length := Min(258, n - i);
              RunTokens(n, b, i, back) == [Copy(length, back)] + RunTokens(n, b, i + length, length)
  {
  }

  lemma Five(a: Token, b: Token, c: Token, d: Token, e: Token)
    ensures [a] + ([b] + ([c] + ([d] + ([e] + [])))) == [a, b, c, d, e]
  {
  }

  /** For example a thousand zeros. */
  lemma ThousandZeros(quality: nat)
    requires quality >= 1
    ensures Zlib.AllTokens(Equal(1000, 0), quality) ==
            [Literal(0), Copy(258, 1), Copy(258, 258), Copy(258, 258), Copy(225, 258)]
  {
    hide RunTokens, Equal;
    EqualBytes(1000, 0, quality);
    RunStep(1000, 0, 1, 1);
    RunStep(1000, 0, 259, 258);
    RunStep(1000, 0, 517, 258);
    RunStep(1000, 0, 775, 258);
    RunStep(1000, 0, 1000, 225);
    Five(Literal(0), Copy(258, 1), Copy(258, 258), Copy(258, 258), Copy(225, 258));
  }
}
