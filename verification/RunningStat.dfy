/**
 Running mean and variance: Welford's recurrence over exact reals, as a class that is pushed one value at a time and
 as the one loop of the thumbnailer.
 */
module RunningStat {

  // ---------- what is computed ----------

  function Sum(s: seq<real>): real {
    if s == [] then 0.0 else Sum(s[..|s| - 1]) + s[|s| - 1]
  }

  function Squares(s: seq<real>): real {
    if s == [] then 0.0 else Squares(s[..|s| - 1]) + s[|s| - 1] * s[|s| - 1]
  }

  function Mean(s: seq<real>): real {
    if s == [] then 0.0 else Sum(s) / |s| as real
  }

  /** The sum of the squared deviations from m. */
  function Deviations(s: seq<real>, m: real): real {
    if s == [] then 0.0 else Deviations(s[..|s| - 1], m) + (s[|s| - 1] - m) * (s[|s| - 1] - m)
  }

  /** The sample variance: squared deviations from the mean, over one less than the number of values. */
  function Variance(s: seq<real>): real {
    if |s| <= 1 then 0.0 else Deviations(s, Mean(s)) / (|s| - 1) as real
  }

  // ---------- Welford's recurrence ----------

  lemma SumGrows(s: seq<real>, x: real, m: real)
    ensures Sum(s + [x]) == Sum(s) + x && Squares(s + [x]) == Squares(s) + x * x
    ensures Deviations(s + [x], m) == Deviations(s, m) + (x - m) * (x - m)
  {
    assert (s + [x])[..|s|] == s;
  }

  lemma {:induction false} DeviationsExpand(s: seq<real>, m: real)
    ensures Deviations(s, m) == Squares(s) - 2.0 * m * Sum(s) + |s| as real * m * m
  {
    if s != [] {
      var n := |s| - 1;
      var front, x := s[..n], s[n];
      DeviationsExpand(front, m);
      DeviationsStep(front, x, m);
      assert s == front + [x];
    }
  }

  lemma DeviationsStep(s: seq<real>, x: real, m: real)
    requires Deviations(s, m) == Squares(s) - 2.0 * m * Sum(s) + |s| as real * m * m
    ensures Deviations(s + [x], m) == Squares(s + [x]) - 2.0 * m * Sum(s + [x]) + |s + [x]| as real * m * m
  {
    hide Deviations, Squares, Sum;
    SumGrows(s, x, m);
    Expand(Squares(s), Sum(s), |s| as real, m, x);
    assert |s + [x]| as real == |s| as real + 1.0;
  }

  lemma Expand(q: real, sum: real, n: real, m: real, x: real)
    ensures q - 2.0 * m * sum + n * m * m + (x - m) * (x - m) == q + x * x - 2.0 * m * (sum + x) + (n + 1.0) * m * m
  {
    assert (x - m) * (x - m) == x * x - 2.0 * m * x + m * m;
    assert 2.0 * m * (sum + x) == 2.0 * m * sum + 2.0 * m * x;
    assert (n + 1.0) * m * m == n * m * m + m * m;
  }

  lemma MeanTimesCount(s: seq<real>)
    ensures |s| as real * Mean(s) == Sum(s)
  {
  }

  lemma NewMean(k: real, m: real, x: real, m': real)
    requires k > 0.0 && (k + 1.0) * m' == k * m + x
    ensures m' == m + (x - m) / (k + 1.0)
  {
    var n, d := k + 1.0, (x - m) / (k + 1.0);
    assert n * d == x - m;
    assert n * (m + d) == n * m + n * d;
    assert n * (m' - (m + d)) == 0.0;
  }

  lemma NewDeviations(q: real, k: real, m: real, x: real, m': real)
    requires (k + 1.0) * m' == k * m + x
    ensures q + x * x - 2.0 * m' * (k * m + x) + (k + 1.0) * m' * m' ==
            q - 2.0 * m * (k * m) + k * m * m + (x - m) * (x - m')
  {
    var t := k * m + x;
    assert (k + 1.0) * m' * m' == t * m' && 2.0 * m' * t == 2.0 * (t * m');
    assert k * m * m == m * (k * m) && 2.0 * m * (k * m) == 2.0 * (m * (k * m));
    assert (x - m) * (x - m') == x * x - x * m' - m * x + m * m';
    assert t * m' == (k * m) * m' + x * m';
    assert m * ((k + 1.0) * m') == m * t;
    assert m * ((k + 1.0) * m') == (k * m) * m' + m * m';
    assert m * t == m * (k * m) + m * x;
  }

  /** The new mean, and the new sum of squared deviations, from the old ones. */
  lemma WelfordStep(s: seq<real>, x: real)
    requires s != []
    ensures Mean(s + [x]) == Mean(s) + (x - Mean(s)) / (|s| as real + 1.0)
    ensures Deviations(s + [x], Mean(s + [x])) == Deviations(s, Mean(s)) + (x - Mean(s)) * (x - Mean(s + [x]))
  {
    hide Mean, Sum, Squares, Deviations;
    var t, k, m, m' := s + [x], |s| as real, Mean(s), Mean(s + [x]);
    assert |t| as real == k + 1.0;
    SumGrows(s, x, m);
    MeanTimesCount(s);
    MeanTimesCount(t);
    NewMean(k, m, x, m');
    DeviationsExpand(s, m);
    DeviationsExpand(t, m');
    NewDeviations(Squares(s), k, m, x, m');
  }

  lemma FirstValue(x: real)
    ensures Mean([x]) == x && Deviations([x], x) == 0.0
  {
    SumGrows([], x, x);
    assert [] + [x] == [x];
  }

  // ---------- the variance, told without the mean ----------

  /** The squared differences of all pairs of values. */
  function Spread(s: seq<real>): real {
    if s == [] then 0.0 else Spread(s[..|s| - 1]) + Deviations(s[..|s| - 1], s[|s| - 1])
  }

  lemma {:induction false} SpreadIs(s: seq<real>)
    ensures Spread(s) == |s| as real * Squares(s) - Sum(s) * Sum(s)
  {
    hide Deviations;
    if s != [] {
      var front, x := s[..|s| - 1], s[|s| - 1];
      SpreadIs(front);
      DeviationsExpand(front, x);
      assert |s| as real == |front| as real + 1.0;
      SpreadStep(|front| as real, Squares(front), Sum(front), x);
    }
  }

  lemma SpreadStep(n: real, q: real, sum: real, x: real)
    ensures n * q - sum * sum + (q - 2.0 * x * sum + n * x * x) == (n + 1.0) * (q + x * x) - (sum + x) * (sum + x)
  {
    assert (n + 1.0) * (q + x * x) == n * q + q + n * (x * x) + x * x;
    assert (sum + x) * (sum + x) == sum * sum + 2.0 * (x * sum) + x * x;
    assert 2.0 * x * sum == 2.0 * (x * sum) && n * x * x == n * (x * x);
  }

  /** n (n - 1) times the sample variance of n values are the squared differences of their pairs. */
  lemma VarianceIs(s: seq<real>)
    requires |s| >= 2
    ensures |s| as real * (|s| - 1) as real * Variance(s) == Spread(s)
  {
    hide Spread, Deviations, Squares, Sum;
    var n, m, k := |s| as real, Mean(s), (|s| - 1) as real;
    MeanTimesCount(s);
    DeviationsExpand(s, m);
    SpreadIs(s);
    assert k > 0.0 && k * Variance(s) == Deviations(s, m);
    VarianceStep(n, k, Variance(s), Deviations(s, m), Squares(s), Sum(s), m);
  }

  lemma VarianceStep(n: real, k: real, v: real, d: real, q: real, sum: real, m: real)
    requires k * v == d && n * m == sum && d == q - 2.0 * m * sum + n * m * m
    ensures n * k * v == n * q - sum * sum
  {
    assert n * k * v == n * (k * v) == n * d;
    assert n * m * m == sum * m && 2.0 * m * sum == 2.0 * (sum * m);
    assert d == q - sum * m;
    assert n * d == n * q - n * (sum * m);
    assert n * (sum * m) == sum * (n * m);
  }

  // ---------- the class ----------

  class RunningStat {
    var n: nat
    var oldM: real
    var newM: real
    var oldS: real
    var newS: real     // not set by the first value
    ghost var data: seq<real>

    ghost predicate Valid()
      reads this
    {
      && n == |data|
      && (n >= 1 ==> newM == oldM == Mean(data) && oldS == Deviations(data, oldM))
      && (n >= 2 ==> newS == oldS)
    }

    constructor ()
      ensures Valid() && data == []
    {
      n, data := 0, [];
    }

    /** Like a new object from here on, whatever the other fields hold. */
    method Clear()
      modifies this
      ensures Valid() && data == []
    {
      n := 0;
      data := [];
    }

    method Push(x: real)
      requires Valid()
      modifies this
      ensures Valid() && data == old(data) + [x]
    {
      hide Mean, Deviations;
      n := n + 1;
      if n == 1 {
        newM := x;
        oldM := x;
        oldS := 0.0;
        FirstValue(x);
        assert data + [x] == [x];
      } else {
        WelfordStep(data, x);
        newM := oldM + (x - oldM) / n as real;
        newS := oldS + (x - oldM) * (x - newM);
        oldM := newM;
        oldS := newS;
      }
      data := data + [x];
    }

    function NumDataValues(): (count: nat)
      requires Valid()
      reads this
      ensures count == |data|
    {
      n
    }

    function GetMean(): (m: real)
      requires Valid()
      reads this
      ensures m == Mean(data)
    {
      if n > 0 then newM else 0.0
    }

    function GetVariance(): (v: real)
      requires Valid()
      reads this
      ensures v == Variance(data)
    {
      if n > 1 then newS / (n - 1) as real else 0.0
    }

    function StandardDeviation(sqrt: real -> real): (d: real)
      requires Valid()
      reads this
      ensures d == sqrt(Variance(data))
    {
      sqrt(GetVariance())
    }
  }

  // ---------- the order of the values does not matter ----------

  function Dropped(s: seq<real>, i: nat): (r: seq<real>)
    requires i < |s|
    ensures |r| == |s| - 1
  {
    s[..i] + s[i + 1..]
  }

  lemma DroppedEnd(s: seq<real>, i: nat)
    requires i < |s|
    ensures var n := |s| - 1;
            if i == n then Dropped(s, i) == s[..n]
            else Dropped(s, i)[..n - 1] == Dropped(s[..n], i) && Dropped(s, i)[n - 1] == s[n]
  {
  }

  lemma {:induction false} SumWithout(s: seq<real>, i: nat)
    requires i < |s|
    ensures Sum(s) == Sum(Dropped(s, i)) + s[i]
    ensures Squares(s) == Squares(Dropped(s, i)) + s[i] * s[i]
    decreases |s|
  {
    hide Dropped;
    DroppedEnd(s, i);
    if i < |s| - 1 {
      SumWithout(s[..|s| - 1], i);
    }
  }

  lemma Without(s: seq<real>, i: nat)
    requires i < |s|
    ensures multiset(Dropped(s, i)) == multiset(s) - multiset{s[i]}
  {
    assert s == s[..i] + [s[i]] + s[i + 1..];
    assert multiset(s) == multiset(s[..i] + s[i + 1..]) + multiset{s[i]};
  }

  lemma SameSize(s: seq<real>, t: seq<real>)
    requires multiset(s) == multiset(t)
    ensures |s| == |t|
  {
    assert |s| == |multiset(s)| == |multiset(t)| == |t|;
  }

  lemma PlaceOf(x: real, t: seq<real>) returns (i: nat)
    requires x in multiset(t)
    ensures i < |t| && t[i] == x
  {
    i :| 0 <= i < |t| && t[i] == x;
  }

  lemma {:induction false} SumsOfPermutation(s: seq<real>, t: seq<real>)
    requires multiset(s) == multiset(t)
    ensures |s| == |t| && Sum(s) == Sum(t) && Squares(s) == Squares(t)
    decreases |s|
  {
    hide Sum, Squares, Dropped;
    SameSize(s, t);
    if s == [] {
      assert t == s;
    } else {
      var i := PlaceOf(s[0], t);
      Without(s, 0);
      Without(t, i);
      SumsOfPermutation(Dropped(s, 0), Dropped(t, i));
      SumWithout(s, 0);
      SumWithout(t, i);
    }
  }

  /** Pushing the same values in any order gives the same mean and variance. */
  lemma OrderDoesNotMatter(s: seq<real>, t: seq<real>)
    requires multiset(s) == multiset(t)
    ensures Mean(s) == Mean(t) && Variance(s) == Variance(t)
  {
    hide Sum, Squares, Deviations;
    SumsOfPermutation(s, t);
    assert s == [] <==> t == [];
    assert Mean(s) == Mean(t);
    DeviationsExpand(s, Mean(s));
    DeviationsExpand(t, Mean(s));
  }

  // ---------- the loop of the thumbnailer ----------

  /** A value too large to be true counts as 0. */
  function Clipped(x: real): real {
    if x > 100000000000.0 || -x > 100000000000.0 then 0.0 else x
  }

  /** The bound is 10^11; what is within it is kept. */
  lemma ClippedIs(x: real)
    ensures -100000000000.0 <= Clipped(x) <= 100000000000.0
    ensures if -100000000000.0 <= x <= 100000000000.0 then Clipped(x) == x else Clipped(x) == 0.0
  {
  }

  function ClippedAll(s: seq<real>): (r: seq<real>)
    ensures |r| == |s|
  {
    seq(|s|, i requires 0 <= i < |s| => Clipped(s[i]))
  }

  lemma ClippedNext(data: seq<real>, n: nat)
    requires 1 <= n <= |data|
    ensures var all := [0.0] + ClippedAll(data); all[..n] + [Clipped(data[n - 1])] == all[..n + 1]
  {
    hide Clipped;
  }

  /**
   The loop starts at a count of one without a value, so what it computes is the mean and variance of a zero and the
   clipped values. The count is a 32-bit number that must not wrap around; the square root is a parameter.
   */
  method ComputeMeanStdDev(data: seq<real>, sqrt: real -> real) returns (mean: real, stdDev: real)
    requires |data| < 0xffff_ffff
    ensures mean == Mean([0.0] + ClippedAll(data))
    ensures stdDev == if data == [] then 0.0 else sqrt(Variance([0.0] + ClippedAll(data)))
  {
    hide Mean, Deviations, Sum, Squares, Clipped, ClippedAll;
    var n: nat := 1;
    var oldS, newS, oldM, newM := 0.0, 0.0, 0.0, 0.0;
    var pos := 0;
    FirstValue(0.0);
    ghost var all := [0.0] + ClippedAll(data);
    assert all[..1] == [0.0];
    while n <= |data|
      invariant 1 <= n <= |data| + 1 && pos == n - 1
      invariant newM == oldM == Mean(all[..n]) && newS == oldS == Deviations(all[..n], oldM)
    {
      var x := data[pos];
      pos := pos + 1;
      x := Clipped(x);
      ClippedNext(data, n);
      WelfordStep(all[..n], x);
      n := (n + 1) % 0x1_0000_0000;
      newM := oldM + (x - oldM) / n as real;
      newS := oldS + (x - oldM) * (x - newM);
      oldM := newM;
      oldS := newS;
    }
    assert all[..n] == all;
    mean := newM;
    stdDev := if n > 1 then sqrt(newS / (n - 1) as real) else 0.0;
  }

  /** The test of the loop holds for this value of the 32-bit counter. */
  predicate GoesOn(n: nat, count: nat) {
    n < 0x1_0000_0000 && n <= count
  }

  /** Some value of the counter ends the loop exactly if the count is below 2^32 - 1, so from there on it never ends. */
  lemma CounterEndsLoop(count: nat)
    ensures (exists n: nat :: n < 0x1_0000_0000 && !GoesOn(n, count)) <==> count < 0xffff_ffff
  {
    if count < 0xffff_ffff {
      assert !GoesOn(count + 1, count);
    }
  }

  lemma {:induction false} DeviationsNotNegative(s: seq<real>, m: real)
    ensures Deviations(s, m) >= 0.0
  {
    if s != [] {
      DeviationsNotNegative(s[..|s| - 1], m);
      SquareNotNegative(s[|s| - 1] - m);
    }
  }

  lemma SquareNotNegative(d: real)
    ensures d * d >= 0.0
  {
  }

  /** The square root is never taken of a negative number. */
  lemma VarianceNotNegative(s: seq<real>)
    ensures Variance(s) >= 0.0
  {
    hide Mean, Deviations;
    DeviationsNotNegative(s, Mean(s));
  }

  lemma {:induction false} SumAfterZero(s: seq<real>)
    ensures Sum([0.0] + s) == Sum(s)
  {
    if s == [] {
      assert [0.0] + s == [] + [0.0];
      SumGrows([], 0.0, 0.0);
    } else {
      SumAfterZero(s[..|s| - 1]);
      assert ([0.0] + s)[..|s|] == [0.0] + s[..|s| - 1];
    }
  }

  /** So the loop gives the mean of the clipped values exactly if they add up to zero. */
  lemma MeanIsPulledToZero(data: seq<real>)
    requires data != []
    ensures Mean([0.0] + ClippedAll(data)) == Mean(ClippedAll(data)) <==> Sum(ClippedAll(data)) == 0.0
  {
    var s := ClippedAll(data);
    SumAfterZero(s);
    hide Sum;
    var n, sum := |s| as real, Sum(s);
    assert Mean(s) * n == sum && Mean([0.0] + s) * (n + 1.0) == sum;
    if Mean([0.0] + s) == Mean(s) {
      assert Mean(s) * (n + 1.0) == Mean(s) * n + Mean(s);
    }
  }
}
