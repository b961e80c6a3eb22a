/**
 Radiance HDR scanlines: the run-length coder, one colour component at a time, against the decoder of the format.
 */
module HdrRle {
  import opened Bits
  import WriteContext

  // ---------- decoding ----------

  /**
   Reads n bytes of one component: a count above 128 repeats one byte count - 128 times, any other count but 0 is
   followed by that many literal bytes, and no packet goes past the n bytes. The result is the component and the rest.
   */
  function Decode(s: seq<byte>, n: nat): Option<(seq<byte>, seq<byte>)>
    decreases n
  {
    if n == 0 then Some(([], s))
    else if |s| < 2 then None
    else if s[0] > 128 then
      var k := s[0] - 128;
      if k > n then None else Prefixed(Repeat(k, s[1]), Decode(s[2..], n - k))
    else
      var k: nat := s[0];
      if k == 0 || k > n || k + 1 > |s| then None else Prefixed(s[1..k + 1], Decode(s[k + 1..], n - k))
  }

  // ---------- the form of the output ----------

  function Dumps(d: seq<byte>): seq<byte> {
    if d == [] then [] else
    var k := Min(|d|, 128);
    [k] + d[..k] + Dumps(d[k..])
  }

  function Runs(n: nat, b: byte): seq<byte> {
    if n == 0 then [] else
    var k := Min(n, 127);
    [k + 128, b] + Runs(n - k, b)
  }

  predicate StartsRun(s: seq<byte>, r: nat) {
    r + 2 < |s| && s[r] == s[r + 1] == s[r + 2]
  }

  /** Where the first three equal bytes are, or the end. */
  function FirstRun(s: seq<byte>, from: nat): (r: nat)
    requires from <= |s|
    ensures from <= r <= |s|
    ensures r == |s| || StartsRun(s, r)
    ensures forall k :: from <= k < r ==> !StartsRun(s, k)
    decreases |s| - from
  {
    if from == |s| || StartsRun(s, from) then from else FirstRun(s, from + 1)
  }

  /** Where the run at the front of s ends. */
  function RunEnd(s: seq<byte>, from: nat): (r: nat)
    requires from <= |s|
    ensures from <= r <= |s|
    ensures forall k :: from <= k < r ==> s[k] == s[0]
    ensures r == |s| || s[r] != s[0]
    decreases |s| - from
  {
    if from == |s| || s[from] != s[0] then from else RunEnd(s, from + 1)
  }

  /** A component: literals up to the first three equal bytes, those bytes and all equal ones after them, and again. */
  function Encoded(s: seq<byte>): seq<byte>
    decreases |s|
  {
    if s == [] then [] else Dumps(s[..FirstRun(s, 0)]) + FromRun(s[FirstRun(s, 0)..])
  }

  function FromRun(s: seq<byte>): seq<byte>
    requires s == [] || StartsRun(s, 0)
    decreases |s|, 0
  {
    if s == [] then [] else Runs(RunEnd(s, 0), s[0]) + Encoded(s[RunEnd(s, 0)..])
  }

  // ---------- what is written, told by the bytes themselves ----------

  lemma FirstRunAt(s: seq<byte>, r: nat)
    requires r + 2 < |s| && s[r] == s[r + 1] == s[r + 2]
    requires forall k :: 0 <= k < r ==> !(s[k] == s[k + 1] == s[k + 2])
    ensures FirstRun(s, 0) == r
  {
    assert StartsRun(s, r);
    FirstRunIs(s, r);
  }

  /**
   Literals, three or more equal bytes and anything else behind them: if the first three equal bytes of it all are
   those, the literals are dumped, the whole run is taken, and coding starts anew behind it.
   */
  lemma EncodedIs(d: seq<byte>, n: nat, b: byte, t: seq<byte>)
    requires n >= 3 && (t != [] ==> t[0] != b)
    requires var s := d + Repeat(n, b) + t; forall k :: 0 <= k < |d| ==> !(s[k] == s[k + 1] == s[k + 2])
    ensures Encoded(d + Repeat(n, b) + t) == Dumps(d) + (Runs(n, b) + Encoded(t))
  {
    hide FirstRun, Dumps, Runs, RunEnd, StartsRun;
    var run := Repeat(n, b) + t;
    var s := d + run;
    Reassociate(d, Repeat(n, b), t);
    FirstRunAt(s, |d|);
    Parts(d, run);
    RunIs(n, b, t);
  }

  lemma RunIs(n: nat, b: byte, t: seq<byte>)
    requires n >= 3 && (t != [] ==> t[0] != b)
    ensures StartsRun(Repeat(n, b) + t, 0) && FromRun(Repeat(n, b) + t) == Runs(n, b) + Encoded(t)
  {
    hide Runs, RunEnd, Encoded;
    var run := Repeat(n, b) + t;
    RunEndIs(run, n);
    Parts(Repeat(n, b), t);
  }

  /** Without three equal bytes everything is dumped. */
  lemma EncodedLiterals(d: seq<byte>)
    requires forall k :: 0 <= k < |d| - 2 ==> !(d[k] == d[k + 1] == d[k + 2])
    ensures Encoded(d) == Dumps(d)
  {
    FirstRunIs(d, |d|);
    assert d[..|d|] == d;
  }

  /** A component of n equal bytes takes two for every 127 begun. */
  lemma EqualLength(n: nat, b: byte)
    requires n >= 3
    ensures |Encoded(Repeat(n, b))| == 2 * ((n + 126) / 127)
  {
    hide Encoded, Dumps, Runs;
    EncodedIs([], n, b, []);
    assert [] + Repeat(n, b) + [] == Repeat(n, b);
    NothingEncoded();
    RunsLength(n, b);
  }

  lemma NothingEncoded()
    ensures Dumps([]) == Encoded([]) == []
  {
  }

  // ---------- decoding gives the component back ----------

  lemma DumpStep(d: seq<byte>, tail: seq<byte>, m: nat, u: seq<byte>, rest: seq<byte>)
    requires 1 <= |d| <= 128 && Decode(tail, m) == Some((u, rest))
    ensures Decode([|d|] + d + tail, |d| + m) == Some((d + u, rest))
  {
    var s := [|d|] + d + tail;
    assert s[1..|d| + 1] == d && s[|d| + 1..] == tail;
  }

  lemma RunStep(k: nat, b: byte, tail: seq<byte>, m: nat, u: seq<byte>, rest: seq<byte>)
    requires 1 <= k <= 127 && Decode(tail, m) == Some((u, rest))
    ensures Decode([k + 128, b] + tail, k + m) == Some((Repeat(k, b) + u, rest))
  {
    assert ([k + 128, b] + tail)[2..] == tail;
  }

  lemma {:induction false} DumpsDecode(d: seq<byte>, tail: seq<byte>, m: nat, u: seq<byte>, rest: seq<byte>)
    requires Decode(tail, m) == Some((u, rest))
    ensures Decode(Dumps(d) + tail, |d| + m) == Some((d + u, rest))
    decreases |d|
  {
    hide Decode, Dumps;
    DumpsFront(d);
    if d == [] {
      assert Dumps(d) + tail == tail && d + u == u;
    } else {
      var k := Min(|d|, 128);
      var front, back := d[..k], d[k..];
      var more := Dumps(back);
      DumpsDecode(back, tail, m, u, rest);
      DumpStep(front, more + tail, |back| + m, back + u, rest);
      assert d == front + back;
      Reassociate([k] + front, more, tail);
      Reassociate(front, back, u);
    }
  }

  lemma {:induction false} RunsDecode(n: nat, b: byte, tail: seq<byte>, m: nat, u: seq<byte>, rest: seq<byte>)
    requires Decode(tail, m) == Some((u, rest))
    ensures Decode(Runs(n, b) + tail, n + m) == Some((Repeat(n, b) + u, rest))
    decreases n
  {
    hide Decode;
    if n == 0 {
      assert Runs(n, b) + tail == tail && Repeat(n, b) + u == u;
    } else {
      var k := Min(n, 127);
      RunsDecode(n - k, b, tail, m, u, rest);
      RunStep(k, b, Runs(n - k, b) + tail, n - k + m, Repeat(n - k, b) + u, rest);
      assert Runs(n, b) + tail == [k + 128, b] + (Runs(n - k, b) + tail);
      assert Repeat(k, b) + (Repeat(n - k, b) + u) == Repeat(n, b) + u;
    }
  }

  /** Reading back what a component was written as gives the component, whatever follows it. */
  lemma {:induction false} EncodedDecodes(s: seq<byte>, rest: seq<byte>)
    ensures Decode(Encoded(s) + rest, |s|) == Some((s, rest))
    decreases |s|
  {
    hide Decode, Dumps, FirstRun, FromRun;
    if s == [] {
      assert Encoded(s) + rest == rest;
      NothingToDecode(rest);
    } else {
      var r := FirstRun(s, 0);
      var front, back := s[..r], s[r..];
      var dumps, more := Dumps(front), FromRun(back);
      FromRunDecodes(back, rest);
      DumpsDecode(front, more + rest, |back|, back, rest);
      Reassociate(dumps, more, rest);
      assert front + back == s;
    }
  }

  lemma NothingToDecode(rest: seq<byte>)
    ensures Decode(rest, 0) == Some(([], rest))
  {
  }

  lemma {:induction false} FromRunDecodes(s: seq<byte>, rest: seq<byte>)
    requires s == [] || StartsRun(s, 0)
    ensures Decode(FromRun(s) + rest, |s|) == Some((s, rest))
    decreases |s|, 0
  {
    hide Decode, Runs, RunEnd, Encoded;
    if s == [] {
      assert FromRun(s) + rest == rest;
      NothingToDecode(rest);
    } else {
      var r := RunEnd(s, 0);
      var tail := Encoded(s[r..]) + rest;
      assert FromRun(s) + rest == Runs(r, s[0]) + tail;
      EncodedDecodes(s[r..], rest);
      RunsDecode(r, s[0], tail, |s| - r, s[r..], rest);
      assert Repeat(r, s[0]) + s[r..] == s;
    }
  }

  // ---------- how long it is ----------

  lemma {:induction false} DumpsLength(d: seq<byte>)
    ensures |Dumps(d)| == |d| + (|d| + 127) / 128
    decreases |d|
  {
    if d != [] {
      DumpsLength(d[Min(|d|, 128)..]);
    }
  }

  lemma {:induction false} RunsLength(n: nat, b: byte)
    ensures |Runs(n, b)| == 2 * ((n + 126) / 127)
    decreases n
  {
    if n > 0 {
      RunsLength(n - Min(n, 127), b);
    }
  }

  /** Coding costs at most one byte per 128, and one more. */
  lemma {:induction false} EncodedLength(s: seq<byte>)
    ensures |Encoded(s)| <= |s| + |s| / 128 + 1
    decreases |s|
  {
    hide Dumps, Runs, FirstRun, RunEnd;
    if s != [] {
      var r := FirstRun(s, 0);
      DumpsLength(s[..r]);
      if r < |s| {
        var run := s[r..];
        var n := RunEnd(run, 0);
        assert n >= 3;
        RunsLength(n, run[0]);
        EncodedLength(run[n..]);
        assert |Runs(n, run[0])| <= n - 1;
      }
    }
  }

  // ---------- the component loops ----------

  method WriteRunData(s: WriteContext.Context, length: nat, databyte: byte)
    requires s.Valid() && length + 128 <= 255
    modifies s`written
    ensures s.written == old(s.written) + [length + 128, databyte]
  {
    s.Func([length + 128]);
    s.Func([databyte]);
  }

  method WriteDumpData(s: WriteContext.Context, data: seq<byte>)
    requires s.Valid() && |data| <= 128
    modifies s`written
    ensures s.written == old(s.written) + [|data|] + data
  {
    s.Func([|data|]);
    s.Func(data);
  }

  lemma Split(s: seq<byte>, x: nat, m: nat, r: nat)
    requires x <= m <= r <= |s|
    ensures s[x..r][..m - x] == s[x..m] && s[x..r][m - x..] == s[m..r]
  {
  }

  lemma DumpsFront(d: seq<byte>)
    ensures Dumps(d) == if d == [] then [] else [Min(|d|, 128)] + d[..Min(|d|, 128)] + Dumps(d[Min(|d|, 128)..])
  {
  }

  lemma DumpsStep(before: seq<byte>, comp: seq<byte>, x: nat, m: nat, r: nat)
    requires x < m <= r <= |comp| && m - x == Min(r - x, 128)
    ensures before + [m - x] + comp[x..m] + Dumps(comp[m..r]) == before + Dumps(comp[x..r])
  {
    hide Dumps;
    DumpsFront(comp[x..r]);
    Split(comp, x, m, r);
  }

  /** Dumps of comp[x..r]. */
  method WriteDumps(s: WriteContext.Context, comp: seq<byte>, x: nat, r: nat)
    requires s.Valid() && x <= r <= |comp|
    modifies s`written
    ensures s.written == old(s.written) + Dumps(comp[x..r])
  {
    hide Dumps;
    var x := x;
    ghost var all := s.written + Dumps(comp[x..r]);
    while x < r
      invariant x <= r && s.written + Dumps(comp[x..r]) == all
    {
      var len := r - x;
      if len > 128 {
        len := 128;
      }
      DumpsStep(s.written, comp, x, x + len, r);
      WriteDumpData(s, comp[x..x + len]);
      x := x + len;
    }
    DumpsFront(comp[x..r]);
  }

  /** Runs of comp[x], up to r. */
  method WriteRuns(s: WriteContext.Context, comp: seq<byte>, x: nat, r: nat)
    requires s.Valid() && x < r <= |comp| && forall k :: x <= k < r ==> comp[k] == comp[x]
    modifies s`written
    ensures s.written == old(s.written) + Runs(r - x, comp[x])
  {
    var x, start := x, x;
    ghost var all := s.written + Runs(r - x, comp[start]);
    while x < r
      invariant start <= x <= r && s.written + Runs(r - x, comp[start]) == all
    {
      var len := r - x;
      if len > 127 {
        len := 127;
      }
      WriteRunData(s, len, comp[x]);
      x := x + len;
    }
  }

  /** Where the search stops is the first run. */
  lemma FirstRunIs(s: seq<byte>, r: nat)
    requires r <= |s| && forall k :: 0 <= k < r ==> !StartsRun(s, k)
    requires r == |s| || StartsRun(s, r)
    ensures FirstRun(s, 0) == r
  {
    hide StartsRun;
    if FirstRun(s, 0) < r {
      assert false;
    }
  }

  lemma RunEndIs(s: seq<byte>, r: nat)
    requires r <= |s| && (forall k :: 0 <= k < r ==> s[k] == s[0]) && (r == |s| || s[r] != s[0])
    ensures RunEnd(s, 0) == r
  {
    if r < RunEnd(s, 0) {
      assert false;
    }
  }

  /** The search from x: the first run at or after x, or the end. */
  method FindRun(comp: seq<byte>, x: nat) returns (r: nat)
    requires x <= |comp|
    ensures x <= r <= |comp| && r - x == FirstRun(comp[x..], 0)
    ensures r + 2 < |comp| <==> r < |comp|
    ensures r < |comp| ==> StartsRun(comp[x..], r - x)
  {
    var s := comp[x..];
    r := x;
    while r + 2 < |comp|
      invariant x <= r <= |comp|
      invariant forall k :: 0 <= k < r - x ==> !StartsRun(s, k)
    {
      if comp[r] == comp[r + 1] && comp[r] == comp[r + 2] {
        break;
      }
      assert !StartsRun(s, r - x);
      r := r + 1;
    }
    if r + 2 >= |comp| {
      r := |comp|;
    }
    FirstRunIs(s, r - x);
  }

  /** The run at x, where at least three equal bytes are. */
  method WriteRun(s: WriteContext.Context, comp: seq<byte>, x: nat) returns (r: nat)
    requires s.Valid() && x < |comp| && StartsRun(comp[x..], 0)
    modifies s`written
    ensures x < r <= |comp| && s.written + Encoded(comp[r..]) == old(s.written) + FromRun(comp[x..])
  {
    hide Runs, Encoded, RunEnd;
    ghost var run := comp[x..];
    r := x;
    while r < |comp| && comp[r] == comp[x]
      invariant x <= r <= |comp| && forall k :: x <= k < r ==> comp[k] == comp[x]
    {
      r := r + 1;
    }
    assert forall k :: 0 <= k < r - x ==> run[k] == comp[x + k];
    RunEndIs(run, r - x);
    assert run[r - x..] == comp[r..] && run[0] == comp[x];
    assert FromRun(run) == Runs(r - x, run[0]) + Encoded(comp[r..]);
    WriteRuns(s, comp, x, r);
  }

  lemma FirstRunSplits(comp: seq<byte>, x: nat, r: nat)
    requires x < |comp| && x <= r <= |comp| && r - x == FirstRun(comp[x..], 0)
    ensures r == |comp| || StartsRun(comp[r..], 0)
    ensures Encoded(comp[x..]) == Dumps(comp[x..r]) + FromRun(comp[r..])
  {
    hide Dumps, FromRun;
    assert comp[x..][..r - x] == comp[x..r] && comp[x..][r - x..] == comp[r..];
  }

  /** One component of a scanline. */
  method WriteComponent(s: WriteContext.Context, comp: seq<byte>)
    requires s.Valid()
    modifies s`written
    ensures s.written == old(s.written) + Encoded(comp)
  {
    hide FirstRun, Dumps, StartsRun, Encoded, FromRun;
    var x := 0;
    ghost var all := s.written + Encoded(comp);
    assert comp[0..] == comp;
    while x < |comp|
      invariant x <= |comp| && s.written + Encoded(comp[x..]) == all
    {
      ghost var start := x;
      var r := FindRun(comp, x);
      FirstRunSplits(comp, x, r);
      WriteDumps(s, comp, x, r);
      x := r;
      if r + 2 < |comp| {
        x := WriteRun(s, comp, x);
      } else {
        NothingLeft(comp);
      }
    }
    NothingLeft(comp);
  }

  lemma NothingLeft(comp: seq<byte>)
    ensures Encoded(comp[|comp|..]) == FromRun(comp[|comp|..]) == []
  {
  }

  datatype Rgbe = Rgbe(r: byte, g: byte, b: byte, e: byte)

  // ---------- from linear colours to shared-exponent pixels ----------

  const TINY: real := 0.00000000000000000000000000000001

  function TwoTo(e: int): (p: real)
    ensures p > 0.0
    decreases if e < 0 then -e else e
  {
    if e == 0 then 1.0 else if e > 0 then 2.0 * TwoTo(e - 1) else TwoTo(e + 1) / 2.0
  }

  /** Its values are the powers of two, and the bound is one part in 10^32. */
  lemma TwoToIs(e: int)
    ensures TwoTo(0) == 1.0 && TwoTo(e + 1) == 2.0 * TwoTo(e) && IsFrexp(TwoTo(e), 0.5, e + 1)
    ensures TINY * 10000000000000000.0 * 10000000000000000.0 == 1.0
  {
  }

  function MaxReal(a: real, b: real): real {
    if a > b then a else b
  }

  /** What frexp gives for a positive number. */
  predicate IsFrexp(v: real, fraction: real, exponent: int) {
    0.5 <= fraction < 1.0 && v == fraction * TwoTo(exponent)
  }

  /** m is the mantissa of v: v in units of 2^(exponent - 8), rounded down. */
  predicate IsMantissa(m: byte, v: real, exponent: int) {
    m as real * TwoTo(exponent) <= v * 256.0 < (m as int + 1) as real * TwoTo(exponent)
  }

  /** There is just one: the whole part of the component over the unit. */
  lemma MantissaIs(m: byte, v: real, exponent: int)
    ensures IsMantissa(m, v, exponent) <==> m == (v * 256.0 / TwoTo(exponent)).Floor
  {
    hide TwoTo;
    var a, p := v * 256.0, TwoTo(exponent);
    DivideBack(a, p);
    FloorScaled(m, a / p, p, a);
  }

  lemma FloorScaled(m: int, x: real, p: real, a: real)
    requires p > 0.0 && x * p == a
    ensures m as real * p <= a < (m + 1) as real * p <==> m == x.Floor
  {
    Sandwich(m as real, x, (m + 1) as real, p, a);
    FloorIs(m, x);
  }

  lemma Sandwich(l: real, x: real, h: real, p: real, a: real)
    requires p > 0.0 && x * p == a
    ensures l * p <= a < h * p <==> l <= x < h
  {
    MulKeepsOrder(l, x, p);
    MulKeepsOrder(h, x, p);
  }

  lemma DivideBack(a: real, p: real)
    requires p > 0.0
    ensures a / p * p == a
  {
  }

  lemma FloorIs(m: int, x: real)
    ensures m == x.Floor <==> m as real <= x < (m + 1) as real
  {
  }

  lemma MulKeepsOrder(a: real, b: real, p: real)
    requires p > 0.0
    ensures a <= b <==> a * p <= b * p
  {
    MulMono(a, b, p);
    MulMono(b, a, p);
  }

  /** The pixel is black or its largest mantissa uses all eight bits. */
  predicate IsNormal(p: Rgbe) {
    p == Rgbe(0, 0, 0, 0) || p.r >= 128 || p.g >= 128 || p.b >= 128
  }

  predicate AllNormal(px: seq<Rgbe>) {
    forall i :: 0 <= i < |px| ==> IsNormal(px[i])
  }

  lemma NormalHasNoRepeats(px: seq<Rgbe>)
    requires AllNormal(px)
    ensures NoRepeats(px)
  {
  }

  lemma MulMono(a: real, b: real, p: real)
    requires p > 0.0
    ensures a <= b ==> a * p <= b * p
    ensures a < b ==> a * p < b * p
  {
  }

  lemma Cancel(a: real, b: real, f: real)
    requires f > 0.0 && a * f == b * f
    ensures a == b
  {
    MulMono(a, b, f);
    MulMono(b, a, f);
  }

  lemma MulAssoc(a: real, b: real, c: real)
    ensures a * b * c == a * (b * c) == a * (c * b)
  {
  }

  /** The units that normalizing leaves are those of the exponent. */
  lemma UnitsAre(max: real, fraction: real, p: real, normalize: real)
    requires p > 0.0 && 0.5 <= fraction < 1.0 && max == fraction * p && normalize * max == fraction * 256.0
    ensures normalize > 0.0 && normalize * p == 256.0
  {
    MulAssoc(normalize, p, fraction);
    Cancel(normalize * p, 256.0, fraction);
    if normalize <= 0.0 {
      MulMono(normalize, 0.0, p);
    }
  }

  lemma Replace(v: real, n: real, p: real, q: real)
    requires n * p == q
    ensures v * n * p == v * q
  {
    MulAssoc(v, n, p);
  }

  lemma Within(v: real, max: real, normalize: real, top: real)
    requires 0.0 <= v <= max && normalize > 0.0 && max * normalize == top
    ensures 0.0 <= v * normalize <= top
  {
    MulMono(v, max, normalize);
    MulMono(0.0, v, normalize);
  }

  /** A component normalized is the component in the units of the exponent, and fits a byte. */
  lemma ComponentFits(v: real, max: real, fraction: real, exponent: int, normalize: real)
    requires 0.0 <= v <= max && max * normalize == fraction * 256.0 && 0.5 <= fraction < 1.0
    requires normalize > 0.0 && normalize * TwoTo(exponent) == 256.0
    ensures var m := (v * normalize).Floor; 0 <= m < 256 && IsMantissa(m, v, exponent) && (v == max ==> m >= 128)
  {
    hide TwoTo, IsMantissa;
    Within(v, max, normalize, fraction * 256.0);
    Replace(v, normalize, TwoTo(exponent), 256.0);
    MantissaOf(v, v * normalize, exponent);
  }

  lemma FloorTimes(x: real, p: real)
    requires p > 0.0
    ensures x.Floor as real * p <= x * p < (x.Floor + 1) as real * p
  {
    MulMono(x.Floor as real, x, p);
    MulMono(x, (x.Floor + 1) as real, p);
  }

  lemma MantissaOf(v: real, x: real, exponent: int)
    requires 0.0 <= x < 256.0 && x * TwoTo(exponent) == v * 256.0
    ensures 0 <= x.Floor < 256 && IsMantissa(x.Floor, v, exponent) && (x >= 128.0 ==> x.Floor >= 128)
  {
    hide TwoTo;
    FloorTimes(x, TwoTo(exponent));
  }

  /** The conversion over exact reals, given what frexp gives for the largest component. */
  method LinearToRgbe(r: real, g: real, b: real, fraction: real, exponent: int) returns (p: Rgbe)
    requires r >= 0.0 && g >= 0.0 && b >= 0.0
    requires MaxReal(r, MaxReal(g, b)) >= TINY ==> IsFrexp(MaxReal(r, MaxReal(g, b)), fraction, exponent)
    ensures IsNormal(p)
    ensures if MaxReal(r, MaxReal(g, b)) < TINY then p == Rgbe(0, 0, 0, 0)
            else p.e == (exponent + 128) % 256 && IsMantissa(p.r, r, exponent) && IsMantissa(p.g, g, exponent) &&
                 IsMantissa(p.b, b, exponent)
  {
    hide TwoTo, IsMantissa;
    var maxcomp := MaxReal(r, MaxReal(g, b));
    if maxcomp < TINY {
      return Rgbe(0, 0, 0, 0);
    }
    var normalize := fraction * 256.0 / maxcomp;
    UnitsAre(maxcomp, fraction, TwoTo(exponent), normalize);
    ComponentFits(r, maxcomp, fraction, exponent, normalize);
    ComponentFits(g, maxcomp, fraction, exponent, normalize);
    ComponentFits(b, maxcomp, fraction, exponent, normalize);
    p := Rgbe((r * normalize).Floor, (g * normalize).Floor, (b * normalize).Floor, (exponent + 128) % 256);
  }

  // ---------- scanlines ----------

  function Part(p: Rgbe, c: nat): byte {
    if c == 0 then p.r else if c == 1 then p.g else if c == 2 then p.b else p.e
  }

  /** One component of every pixel. */
  function Component(px: seq<Rgbe>, c: nat): (s: seq<byte>)
    ensures |s| == |px|
  {
    seq(|px|, i requires 0 <= i < |px| => Part(px[i], c))
  }

  predicate UsesRle(width: nat) {
    8 <= width < 32768
  }

  function Flat(px: seq<Rgbe>): seq<byte> {
    if px == [] then [] else [px[0].r, px[0].g, px[0].b, px[0].e] + Flat(px[1..])
  }

  function Components(px: seq<Rgbe>, c: nat): seq<byte>
    requires c <= 4
    decreases 4 - c
  {
    if c == 4 then [] else Encoded(Component(px, c)) + Components(px, c + 1)
  }

  /** A scanline as written: run-length coded behind a header that tells its width, or flat if too short or long. */
  function ScanlineBytes(px: seq<Rgbe>): seq<byte> {
    if UsesRle(|px|) then [2, 2, |px| / 256, |px| % 256] + Components(px, 0) else Flat(px)
  }

  /** In a flat scanline a pixel 1, 1, 1, n repeats the one before it; n is worth 256 times more behind another such. */
  predicate IsRepeat(p: Rgbe) {
    p.r == p.g == p.b == 1
  }

  /** Reads the pixels of a flat scanline behind those already done. */
  function ReadFlat(s: seq<byte>, width: nat, done: seq<Rgbe>, scale: nat): Option<(seq<Rgbe>, seq<byte>)>
    requires |done| <= width
  {
    if |done| == width then Some((done, s))
    else if |s| < 4 then None
    else
      var p := Rgbe(s[0], s[1], s[2], s[3]);
      if !IsRepeat(p) then ReadFlat(s[4..], width, done + [p], 1)
      else
        var n: nat := p.e * scale;
        if n == 0 then ReadFlat(s[4..], width, done, scale * 256)
        else if done == [] || |done| + n > width then None
        else ReadFlat(s[4..], width, done + Repeat(n, done[|done| - 1]), scale * 256)
  }

  function Join(r: seq<byte>, g: seq<byte>, b: seq<byte>, e: seq<byte>): (px: seq<Rgbe>)
    requires |r| == |g| == |b| == |e|
    ensures |px| == |r|
  {
    seq(|r|, i requires 0 <= i < |r| => Rgbe(r[i], g[i], b[i], e[i]))
  }

  function ReadPlanes(s: seq<byte>, width: nat, k: nat): Option<(seq<seq<byte>>, seq<byte>)>
    decreases k
  {
    if k == 0 then Some(([], s)) else
    match Decode(s, width)
    case None => None
    case Some(plane) =>
      match ReadPlanes(plane.1, width, k - 1)
      case None => None
      case Some(more) => Some(([plane.0] + more.0, more.1))
  }

  function ReadComponents(s: seq<byte>, width: nat): Option<(seq<Rgbe>, seq<byte>)> {
    match ReadPlanes(s, width, 4)
    case None => None
    case Some(r) =>
      var p := r.0;
      if |p| == 4 && |p[0]| == |p[1]| == |p[2]| == |p[3]| == width
        then Some((Join(p[0], p[1], p[2], p[3]), r.1)) else None
  }

  /** Reads one scanline of a known width. */
  function ReadScanline(s: seq<byte>, width: nat): Option<(seq<Rgbe>, seq<byte>)> {
    if !UsesRle(width) || |s| < 4 || s[0] != 2 || s[1] != 2 || s[2] >= 128 then ReadFlat(s, width, [], 1)
    else if s[2] as int * 256 + s[3] != width then None
    else ReadComponents(s[4..], width)
  }

  /** Below 8 and from 32768 pixels on the scanline is flat; otherwise it begins with 2, 2 and its width. */
  lemma ScanlineIs(px: seq<Rgbe>)
    ensures if |px| < 8 || |px| >= 32768 then ScanlineBytes(px) == Flat(px)
            else ScanlineBytes(px) == [2, 2, |px| / 256, |px| % 256] + (Encoded(Component(px, 0)) +
                 (Encoded(Component(px, 1)) + (Encoded(Component(px, 2)) + Encoded(Component(px, 3)))))
  {
    hide Encoded, Component, Flat;
    assert Components(px, 4) == [] && Components(px, 3) == Encoded(Component(px, 3)) + [];
    assert Components(px, 2) == Encoded(Component(px, 2)) + Components(px, 3);
    assert Components(px, 1) == Encoded(Component(px, 1)) + Components(px, 2);
  }

  lemma {:induction false} FlatLength(px: seq<Rgbe>)
    ensures |Flat(px)| == 4 * |px|
  {
    if px != [] {
      FlatLength(px[1..]);
    }
  }

  predicate NoRepeats(px: seq<Rgbe>) {
    forall i :: 0 <= i < |px| ==> !IsRepeat(px[i])
  }

  /** Whatever is read from a flat scanline holds no repeat pixel. */
  lemma {:induction false} ReadHasNoRepeats(s: seq<byte>, width: nat, done: seq<Rgbe>, scale: nat)
    requires |done| <= width && NoRepeats(done)
    ensures var r := ReadFlat(s, width, done, scale); r.Some? ==> NoRepeats(r.value.0)
    decreases |s|
  {
    if |done| < width && |s| >= 4 {
      var p := Rgbe(s[0], s[1], s[2], s[3]);
      if !IsRepeat(p) {
        ReadHasNoRepeats(s[4..], width, done + [p], 1);
      } else {
        var n: nat := p.e * scale;
        if n == 0 {
          ReadHasNoRepeats(s[4..], width, done, scale * 256);
        } else if done != [] && |done| + n <= width {
          ReadHasNoRepeats(s[4..], width, done + Repeat(n, done[|done| - 1]), scale * 256);
        }
      }
    }
  }

  lemma FlatFront(px: seq<Rgbe>, k: nat, rest: seq<byte>)
    requires k < |px|
    ensures Flat(px[k..]) + rest == [px[k].r, px[k].g, px[k].b, px[k].e] + (Flat(px[k + 1..]) + rest)
  {
    DropMore(px, k, 1);
  }

  lemma {:induction false} FlatReads(px: seq<Rgbe>, k: nat, rest: seq<byte>, scale: nat)
    requires k <= |px| && NoRepeats(px)
    ensures ReadFlat(Flat(px[k..]) + rest, |px|, px[..k], scale) == Some((px, rest))
    decreases |px| - k
  {
    hide Flat;
    if k == |px| {
      assert px[..k] == px && Flat(px[k..]) + rest == rest by { FlatOfNone(px, rest); }
    } else {
      FlatFront(px, k, rest);
      Parts([px[k].r, px[k].g, px[k].b, px[k].e], Flat(px[k + 1..]) + rest);
      assert px[..k] + [px[k]] == px[..k + 1];
      FlatReads(px, k + 1, rest, 1);
    }
  }

  lemma FlatOfNone(px: seq<Rgbe>, rest: seq<byte>)
    ensures Flat(px[|px|..]) + rest == rest
  {
  }

  /** A flat scanline reads back as its pixels if and only if none of them is a repeat pixel. */
  lemma FlatReadsIff(px: seq<Rgbe>, rest: seq<byte>)
    ensures ReadFlat(Flat(px) + rest, |px|, [], 1) == Some((px, rest)) <==> NoRepeats(px)
  {
    hide ReadFlat, Flat;
    ReadHasNoRepeats(Flat(px) + rest, |px|, [], 1);
    if NoRepeats(px) {
      FlatReads(px, 0, rest, 1);
      assert px[0..] == px && px[..0] == [];
    }
  }

  lemma JoinComponents(px: seq<Rgbe>)
    ensures Join(Component(px, 0), Component(px, 1), Component(px, 2), Component(px, 3)) == px
  {
  }

  ghost function Planes(px: seq<Rgbe>, c: nat): seq<seq<byte>>
    requires c <= 4
    decreases 4 - c
  {
    if c == 4 then [] else [Component(px, c)] + Planes(px, c + 1)
  }

  lemma {:induction false} PlanesRead(px: seq<Rgbe>, c: nat, rest: seq<byte>)
    requires c <= 4
    ensures ReadPlanes(Components(px, c) + rest, |px|, 4 - c) == Some((Planes(px, c), rest))
    decreases 4 - c
  {
    hide Decode, Encoded, Component;
    if c == 4 {
      assert Components(px, c) + rest == rest;
    } else {
      var tail := Components(px, c + 1) + rest;
      EncodedDecodes(Component(px, c), tail);
      assert Components(px, c) + rest == Encoded(Component(px, c)) + tail;
      PlanesRead(px, c + 1, rest);
    }
  }

  lemma FourPlanes(px: seq<Rgbe>)
    ensures Planes(px, 0) == [Component(px, 0), Component(px, 1), Component(px, 2), Component(px, 3)]
  {
    assert Planes(px, 3) == [Component(px, 3)] + Planes(px, 4);
    assert Planes(px, 1) == [Component(px, 1)] + Planes(px, 2);
  }

  lemma ComponentsRead(px: seq<Rgbe>, rest: seq<byte>)
    ensures ReadComponents(Components(px, 0) + rest, |px|) == Some((px, rest))
  {
    hide Decode, Components, Component, Join, ReadPlanes, Planes;
    PlanesRead(px, 0, rest);
    FourPlanes(px);
    JoinComponents(px);
  }

  /** A scanline reads back as its pixels if and only if it is run-length coded or holds no repeat pixel. */
  lemma ScanlineReadsIff(px: seq<Rgbe>, rest: seq<byte>)
    ensures ReadScanline(ScanlineBytes(px) + rest, |px|) == Some((px, rest)) <==> UsesRle(|px|) || NoRepeats(px)
  {
    hide ReadComponents, Components, ReadFlat, Flat;
    if UsesRle(|px|) {
      ComponentsRead(px, rest);
      assert (ScanlineBytes(px) + rest)[4..] == Components(px, 0) + rest;
    } else {
      FlatReadsIff(px, rest);
    }
  }

  lemma ScanlineLength(px: seq<Rgbe>)
    ensures |ScanlineBytes(px)| <= 4 + 4 * (|px| + |px| / 128 + 1)
  {
    hide Encoded, Flat, Component;
    if UsesRle(|px|) {
      EncodedLength(Component(px, 0));
      EncodedLength(Component(px, 1));
      EncodedLength(Component(px, 2));
      EncodedLength(Component(px, 3));
      assert Components(px, 4) == [];
      assert |Components(px, 2)| == |Encoded(Component(px, 2))| + |Encoded(Component(px, 3))|;
    } else {
      FlatLength(px);
    }
  }

  /** The scratch buffer up to x, all four planes. */
  ghost predicate Filled(scratch: seq<byte>, px: seq<Rgbe>, x: nat)
    requires x <= |px| && |scratch| == 4 * |px|
  {
    && (forall i :: 0 <= i < x ==> scratch[i] == px[i].r)
    && (forall i :: 0 <= i < x ==> scratch[|px| + i] == px[i].g)
    && (forall i :: 0 <= i < x ==> scratch[2 * |px| + i] == px[i].b)
    && (forall i :: 0 <= i < x ==> scratch[3 * |px| + i] == px[i].e)
  }

  lemma NothingFilled(scratch: seq<byte>, px: seq<Rgbe>)
    requires |scratch| == 4 * |px|
    ensures Filled(scratch, px, 0)
  {
  }

  lemma FilledStep(scratch: seq<byte>, px: seq<Rgbe>, x: nat)
    requires |scratch| == 4 * |px| && x < |px| && Filled(scratch, px, x)
    ensures var w, p := |px|, px[x];
            Filled(scratch[x := p.r][w + x := p.g][2 * w + x := p.b][3 * w + x := p.e], px, x + 1)
  {
  }

  method FillScratch(scratch: array<byte>, px: seq<Rgbe>)
    requires scratch.Length == 4 * |px|
    modifies scratch
    ensures Filled(scratch[..], px, |px|)
  {
    hide Filled;
    var width := |px|;
    NothingFilled(scratch[..], px);
    for x := 0 to width
      invariant Filled(scratch[..], px, x)
    {
      FilledStep(scratch[..], px, x);
      scratch[x + width * 0] := px[x].r;
      scratch[x + width * 1] := px[x].g;
      scratch[x + width * 2] := px[x].b;
      scratch[x + width * 3] := px[x].e;
    }
  }

  method WriteFlat(s: WriteContext.Context, px: seq<Rgbe>)
    requires s.Valid()
    modifies s`written
    ensures s.written == old(s.written) + Flat(px)
  {
    assert px[0..] == px;
    for x := 0 to |px|
      invariant s.written + Flat(px[x..]) == old(s.written) + Flat(px)
    {
      s.Func([px[x].r, px[x].g, px[x].b, px[x].e]);
      assert px[x..][1..] == px[x + 1..];
    }
  }

  lemma ComponentsFront(px: seq<Rgbe>, c: nat)
    requires c <= 4
    ensures Components(px, c) == if c == 4 then [] else Encoded(Component(px, c)) + Components(px, c + 1)
  {
  }

  /** The four components, one after the other. */
  method WriteComponents(s: WriteContext.Context, scratch: array<byte>, px: seq<Rgbe>)
    requires s.Valid() && scratch.Length == 4 * |px|
    requires Filled(scratch[..], px, |px|)
    modifies s`written
    ensures s.written == old(s.written) + Components(px, 0)
  {
    hide Encoded, Filled, Component, Components;
    var width := |px|;
    ghost var planes := scratch[..];
    ghost var all := s.written + Components(px, 0);
    var c := 0;
    while c < 4
      invariant c <= 4 && s.written + Components(px, c) == all
    {
      PlaneIsComponent(planes, px, c);
      ComponentsFront(px, c);
      assert scratch[width * c..width * c + width] == planes[width * c..width * c + width];
      WriteComponent(s, scratch[width * c..width * c + width]);
      c := c + 1;
    }
    ComponentsFront(px, 4);
  }

  /** One scanline, through the scratch buffer of four component planes. */
  method WriteScanline(s: WriteContext.Context, scratch: array<byte>, px: seq<Rgbe>)
    requires s.Valid() && scratch.Length == 4 * |px|
    modifies s`written, scratch
    ensures s.written == old(s.written) + ScanlineBytes(px)
  {
    hide Components, Filled, Flat;
    var width := |px|;
    if width < 8 || width >= 32768 {
      WriteFlat(s, px);
    } else {
      FillScratch(scratch, px);
      s.Func([2, 2, width / 256 % 256, width % 256]);
      WriteComponents(s, scratch, px);
    }
  }

  lemma PlaneIsComponent(scratch: seq<byte>, px: seq<Rgbe>, c: nat)
    requires c < 4 && |scratch| == 4 * |px| && Filled(scratch, px, |px|)
    ensures |px| * c + |px| <= |scratch| && scratch[|px| * c..|px| * c + |px|] == Component(px, c)
  {
    assert |px| * c <= |px| * 3;
    var plane := scratch[|px| * c..|px| * c + |px|];
    forall i | 0 <= i < |px| ensures plane[i] == Part(px[i], c) {
      assert plane[i] == scratch[|px| * c + i];
    }
  }

  // ---------- the whole picture ----------

  /** The rows in the order written: bottom up when flipping. */
  function Ordered(rows: seq<seq<Rgbe>>, flip: bool): (r: seq<seq<Rgbe>>)
    ensures |r| == |rows|
    ensures forall i :: 0 <= i < |rows| ==> r[i] == rows[if flip then |rows| - 1 - i else i]
  {
    seq(|rows|, i requires 0 <= i < |rows| => rows[if flip then |rows| - 1 - i else i])
  }

  function Body(rows: seq<seq<Rgbe>>): seq<byte> {
    if rows == [] then [] else ScanlineBytes(rows[0]) + Body(rows[1..])
  }

  function ReadRows(s: seq<byte>, width: nat, height: nat): Option<(seq<seq<Rgbe>>, seq<byte>)>
    decreases height
  {
    if height == 0 then Some(([], s)) else
    match ReadScanline(s, width)
    case None => None
    case Some(row) =>
      match ReadRows(row.1, width, height - 1)
      case None => None
      case Some(more) => Some(([row.0] + more.0, more.1))
  }

  /** The rows of a picture as the conversion makes them. */
  predicate ArePixels(rows: seq<seq<Rgbe>>, width: nat) {
    forall i :: 0 <= i < |rows| ==> |rows[i]| == width && AllNormal(rows[i])
  }

  lemma {:induction false} BodyReads(rows: seq<seq<Rgbe>>, width: nat, rest: seq<byte>)
    requires ArePixels(rows, width)
    ensures ReadRows(Body(rows) + rest, width, |rows|) == Some((rows, rest))
  {
    hide ReadScanline, ScanlineBytes, AllNormal;
    if rows == [] {
      assert Body(rows) + rest == rest;
    } else {
      BodyReads(rows[1..], width, rest);
      NormalHasNoRepeats(rows[0]);
      ScanlineReadsIff(rows[0], Body(rows[1..]) + rest);
      assert Body(rows) + rest == ScanlineBytes(rows[0]) + (Body(rows[1..]) + rest);
      assert [rows[0]] + rows[1..] == rows;
    }
  }

  lemma {:induction false} BodyGrows(rows: seq<seq<Rgbe>>, row: seq<Rgbe>)
    ensures Body(rows + [row]) == Body(rows) + ScanlineBytes(row)
  {
    hide ScanlineBytes;
    if rows == [] {
      assert (rows + [row])[1..] == [];
    } else {
      BodyGrows(rows[1..], row);
      assert (rows + [row])[1..] == rows[1..] + [row];
    }
  }

  /** The pixel data of a picture: reading it back gives the rows, top down or bottom up as asked. */
  method WriteBody(s: WriteContext.Context, rows: seq<seq<Rgbe>>, width: nat, flip: bool)
    requires s.Valid() && ArePixels(rows, width)
    modifies s`written
    ensures |s.written| >= |old(s.written)| && s.written[..|old(s.written)|] == old(s.written)
    ensures ReadRows(s.written[|old(s.written)|..], width, |rows|) == Some((Ordered(rows, flip), []))
  {
    hide ReadRows, ScanlineBytes, AllNormal;
    var scratch := new byte[4 * width];
    ghost var ordered := Ordered(rows, flip);
    var i := 0;
    while i < |rows|
      invariant i <= |rows| && s.written == old(s.written) + Body(ordered[..i])
    {
      WriteScanline(s, scratch, rows[if flip then |rows| - 1 - i else i]);
      BodyGrows(ordered[..i], ordered[i]);
      assert ordered[..i + 1] == ordered[..i] + [ordered[i]];
      i := i + 1;
    }
    assert ordered[..i] == ordered;
    Parts(old(s.written), Body(ordered));
    assert Body(ordered) + [] == Body(ordered);
    BodyReads(ordered, width, []);
  }
}
