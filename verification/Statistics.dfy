/** Running statistics by Welford's method (src/utils.c), over the reals. */
module Statistics {

  function Sum(xs: seq<real>): real {
    if xs == [] then 0.0 else Sum(xs[..|xs| - 1]) + xs[|xs| - 1]
  }

  /** The sum of the squared deviations from `c`. */
  function Squares(xs: seq<real>, c: real): real {
    if xs == [] then 0.0 else Squares(xs[..|xs| - 1], c) + Sq(xs[|xs| - 1] - c)
  }

  function Sq(x: real): real {
    x * x
  }

  function Mean(xs: seq<real>): real {
    if xs == [] then 0.0 else Sum(xs) / |xs| as real
  }

  lemma Snoc(xs: seq<real>, x: real, c: real)
    ensures Sum(xs + [x]) == Sum(xs) + x && Squares(xs + [x], c) == Squares(xs, c) + Sq(x - c)
  {
    assert (xs + [x])[..|xs|] == xs;
  }

  lemma SqPositive(x: real)
    ensures Sq(x) >= 0.0
  {
    assert x >= 0.0 || -x >= 0.0;
  }

  lemma SqDiff(y: real, e: real)
    ensures Sq(y - e) == Sq(y) - 2.0 * e * y + Sq(e)
  {
  }

  lemma Spread(e: real, u: real, y: real)
    ensures 2.0 * e * (u + y) == 2.0 * e * u + 2.0 * e * y
  {
  }

  lemma OneMore(m: real, c: real)
    ensures (m + 1.0) * c == m * c + c
  {
  }

  /** How the squares `s'` about `d` follow from the squares `s` about `c`, for `m` samples. */
  ghost predicate Moved(m: real, sum: real, s: real, s': real, c: real, d: real) {
    s' == s - 2.0 * (d - c) * (sum - m * c) + m * Sq(d - c)
  }

  /** The squares about one centre, from those about another. */
  lemma {:induction false} Recentre(xs: seq<real>, c: real, d: real)
    ensures Moved(|xs| as real, Sum(xs), Squares(xs, c), Squares(xs, d), c, d)
  {
    if xs != [] {
      var h, x := xs[..|xs| - 1], xs[|xs| - 1];
      Recentre(h, c, d);
      Snoc(h, x, c);
      Snoc(h, x, d);
      assert xs == h + [x];
      hide Sum, Squares, Sq, Moved;
      RecentreStep(|h| as real, Sum(h), Squares(h, c), Squares(h, d), x, c, d);
    }
  }

  lemma RecentreStep(m: real, sum: real, s: real, s': real, x: real, c: real, d: real)
    requires Moved(m, sum, s, s', c, d)
    ensures Moved(m + 1.0, sum + x, s + Sq(x - c), s' + Sq(x - d), c, d)
  {
    hide Sq;
    var e, u, y := d - c, sum - m * c, x - c;
    SqDiff(y, e);
    OneMore(m, c);
    OneMore(m, Sq(e));
    Spread(e, u, y);
    assert y - e == x - d;
    assert sum + x - (m + 1.0) * c == u + y;
  }

  /** One more sample moves the mean by `step`; the sum of squares about the new mean, from the
      one about the old. */
  lemma Welford(xs: seq<real>, x: real, step: real)
    requires (|xs| as real + 1.0) * step == x - Mean(xs)
    ensures Mean(xs + [x]) == Mean(xs) + step
    ensures Squares(xs + [x], Mean(xs) + step) ==
            Squares(xs, Mean(xs)) + (x - Mean(xs)) * (x - (Mean(xs) + step))
  {
    var m, mu := |xs| as real, Mean(xs);
    MeanTimes(xs);
    MeanTimes(xs + [x]);
    Snoc(xs, x, mu + step);
    Recentre(xs, mu, mu + step);
    hide Sq, Mean, Squares, Sum, Moved;
    NewMean(m, mu, x, step);
    SameQuotient(m + 1.0, mu + step, Mean(xs + [x]));
    StepSquares(m, x - mu, step);
    Welded(Sum(xs), Squares(xs, mu), Squares(xs, mu + step), x, mu, step, m);
  }

  /** The two assignments of the program. */
  function NextMean(mean: real, delta: real, n: nat): real
    requires n > 0
  {
    mean + delta / n as real
  }

  function NextM2(m2: real, delta: real, delta': real): real {
    m2 + delta * delta'
  }

  /** The same for the assignments of the program. */
  lemma WelfordStep(xs: seq<real>, x: real, n: nat, mu: real, m2: real)
    requires n == |xs| + 1 && mu == Mean(xs) && m2 == Squares(xs, mu)
    ensures var mean := NextMean(mu, x - mu, n);
            mean == Mean(xs + [x]) && NextM2(m2, x - mu, x - mean) == Squares(xs + [x], mean)
  {
    hide Mean, Squares;
    assert n as real == |xs| as real + 1.0;
    Quotient(x - mu, n as real);
    Welford(xs, x, (x - mu) / n as real);
  }

  lemma Quotient(a: real, n: real)
    requires n > 0.0
    ensures n * (a / n) == a
  {
  }

  lemma NewMean(m: real, mu: real, x: real, step: real)
    requires (m + 1.0) * step == x - mu
    ensures (m + 1.0) * (mu + step) == m * mu + x
  {
  }

  /** The two parts of Welford's step put together. */
  lemma Welded(sum: real, s: real, s': real, x: real, mu: real, step: real, m: real)
    requires m * mu == sum
    requires Moved(m, sum, s, s', mu, mu + step)
    requires m * Sq(step) + Sq(x - mu - step) == (x - mu) * (x - mu - step)
    ensures s' + Sq(x - (mu + step)) == s + (x - mu) * (x - (mu + step))
  {
    hide Sq;
    assert mu + step - mu == step && x - mu - step == x - (mu + step);
  }

  lemma MeanTimes(xs: seq<real>)
    ensures |xs| as real * Mean(xs) == Sum(xs)
  {
  }

  lemma SameQuotient(n: real, a: real, b: real)
    requires n > 0.0 && n * a == n * b
    ensures a == b
  {
    assert a == (n * a) / n;
    assert b == (n * b) / n;
  }

  lemma StepSquares(m: real, delta: real, step: real)
    requires (m + 1.0) * step == delta
    ensures m * Sq(step) + Sq(delta - step) == delta * (delta - step)
  {
    assert delta - step == m * step;
    assert Sq(m * step) == m * step * (m * step);
    assert delta * (m * step) == (m + 1.0) * step * (m * step);
  }

  lemma {:induction false} SquaresPositive(xs: seq<real>, c: real)
    ensures Squares(xs, c) >= 0.0
  {
    if xs != [] {
      SquaresPositive(xs[..|xs| - 1], c);
      SqPositive(xs[|xs| - 1] - c);
    }
  }

  // ---- order -----------------------------------------------------------------------------

  /** Taking a sample out of the middle. */
  lemma {:induction false} Without(xs: seq<real>, k: nat, c: real)
    requires k < |xs|
    ensures Sum(xs) == Sum(xs[..k] + xs[k + 1..]) + xs[k]
    ensures Squares(xs, c) == Squares(xs[..k] + xs[k + 1..], c) + Sq(xs[k] - c)
    decreases |xs|
  {
    hide Sum, Squares, Sq;
    var h, x := xs[..|xs| - 1], xs[|xs| - 1];
    assert xs == h + [x];
    Snoc(h, x, c);
    if k == |xs| - 1 {
      assert xs[..k] + xs[k + 1..] == h;
    } else {
      Without(h, k, c);
      var r := h[..k] + h[k + 1..];
      Snoc(r, x, c);
      assert xs[k + 1..] == h[k + 1..] + [x];
      assert xs[..k] + xs[k + 1..] == r + [x];
    }
  }

  lemma WithoutCount(xs: seq<real>, k: nat)
    requires k < |xs|
    ensures multiset(xs) == multiset(xs[..k] + xs[k + 1..]) + multiset{xs[k]}
  {
    assert xs == xs[..k] + [xs[k]] + xs[k + 1..];
  }

  /** Neither the sum nor the squares depend on the order of the samples. */
  lemma {:induction false} AnyOrder(xs: seq<real>, ys: seq<real>, c: real)
    requires multiset(xs) == multiset(ys)
    ensures |xs| == |ys| && Sum(xs) == Sum(ys) && Squares(xs, c) == Squares(ys, c)
    decreases |xs|
  {
    if xs != [] {
      hide Sum, Squares, Sq;
      var k := Partner(xs, ys);
      var h, x := xs[..|xs| - 1], xs[|xs| - 1];
      assert xs == h + [x];
      Snoc(h, x, c);
      Without(ys, k, c);
      AnyOrder(h, ys[..k] + ys[k + 1..], c);
    } else {
      assert ys == [] by {
        assert |multiset(ys)| == 0;
      }
    }
  }

  /** Where the last sample of one order stands in another. */
  lemma Partner(xs: seq<real>, ys: seq<real>) returns (k: nat)
    requires multiset(xs) == multiset(ys) && xs != []
    ensures k < |ys| && ys[k] == xs[|xs| - 1]
    ensures multiset(xs[..|xs| - 1]) == multiset(ys[..k] + ys[k + 1..])
  {
    var x := xs[|xs| - 1];
    assert x in multiset(xs);
    k :| 0 <= k < |ys| && ys[k] == x;
    WithoutCount(xs, |xs| - 1);
    WithoutCount(ys, k);
    assert xs[..|xs| - 1] + xs[|xs|..] == xs[..|xs| - 1];
    Cancel(multiset(xs[..|xs| - 1]), multiset(ys[..k] + ys[k + 1..]), x);
  }

  lemma Cancel(a: multiset<real>, b: multiset<real>, x: real)
    requires a + multiset{x} == b + multiset{x}
    ensures a == b
  {
    forall y ensures a[y] == b[y] {
      assert (a + multiset{x})[y] == a[y] + multiset{x}[y];
      assert (b + multiset{x})[y] == b[y] + multiset{x}[y];
    }
  }

  // ---- the program -----------------------------------------------------------------------

  const MIN_START := 10000000000.0

  /** The least of the samples and the start value. */
  ghost predicate IsMin(m: real, xs: seq<real>) {
    m <= MIN_START && (forall x :: x in xs ==> m <= x) && (m == MIN_START || m in xs)
  }

  /** The greatest of the samples and zero. */
  ghost predicate IsMax(m: real, xs: seq<real>) {
    m >= 0.0 && (forall x :: x in xs ==> m >= x) && (m == 0.0 || m in xs)
  }

  lemma ExtremesSnoc(min: real, max: real, xs: seq<real>, x: real)
    requires IsMin(min, xs) && IsMax(max, xs)
    ensures IsMin(if x < min then x else min, xs + [x]) && IsMax(if x > max then x else max, xs + [x])
  {
  }

  class Stat {
    var n: nat
    var min: real
    var max: real
    var mean: real
    var m2: real
    ghost var samples: seq<real>

    /** The fields say what they are named for, of the samples since the last reset. */
    ghost predicate Valid()
      reads this
    {
      && n == |samples|
      && mean == Mean(samples)
      && m2 == Squares(samples, mean)
      && IsMin(min, samples) && IsMax(max, samples)
    }

    /** luajack_stat_reset */
    constructor ()
      ensures Valid() && samples == []
    {
      min, max, mean, m2, n, samples := MIN_START, 0.0, 0.0, 0.0, 0, [];
    }

    method Reset()
      modifies this
      ensures Valid() && samples == []
    {
      min, max, mean, m2, n, samples := MIN_START, 0.0, 0.0, 0.0, 0, [];
    }

    /** luajack_stat_update */
    method Update(sample: real)
      requires Valid()
      modifies this
      ensures Valid() && samples == old(samples) + [sample]
    {
      ExtremesSnoc(min, max, samples, sample);
      hide Mean, Squares, IsMin, IsMax;
      ghost var xs := samples;
      samples := samples + [sample];
      n := n + 1;
      if sample < min {
        min := sample;
      }
      if sample > max {
        max := sample;
      }
      mean, m2 := Moments(sample, n, mean, m2, xs);
    }

    /** The assignments of Welford's algorithm. */
    static method Moments(sample: real, n: nat, mean: real, m2: real, ghost xs: seq<real>)
      returns (mean': real, m2': real)
      requires n == |xs| + 1 && mean == Mean(xs) && m2 == Squares(xs, mean)
      ensures mean' == Mean(xs + [sample]) && m2' == Squares(xs + [sample], mean')
    {
      hide Mean, Squares;
      WelfordStep(xs, sample, n, mean, m2);
      var delta := sample - mean;
      mean' := mean + delta / n as real;
      assert mean' == NextMean(mean, delta, n);
      m2' := m2 + delta * (sample - mean');
      assert m2' == NextM2(m2, delta, sample - mean');
    }

    /** luajack_stat_variance: the mean square deviation, with one sample less for the divisor. */
    function Variance(): (v: real)
      requires Valid()
      reads this
      ensures v >= 0.0
      ensures |samples| > 1 ==> v * (|samples| - 1) as real == Squares(samples, Mean(samples))
      ensures |samples| <= 1 ==> v == 0.0
    {
      SquaresPositive(samples, mean);
      if n > 1 then m2 / (n - 1) as real else 0.0
    }
  }

  /** The mean times the number of samples is their sum, the second moment is the sum of the squared
      deviations from it, and the extremes are those of the samples, clipped by where they start. */
  lemma Meaning(s: Stat)
    requires s.Valid()
    ensures s.n == |s.samples| && s.n as real * s.mean == Sum(s.samples) && s.m2 == Squares(s.samples, s.mean)
    ensures s.m2 >= 0.0
    ensures forall x :: x in s.samples ==> s.min <= x <= s.max
    ensures s.min in s.samples || (s.min == 10000000000.0 && forall x :: x in s.samples ==> x >= 10000000000.0)
    ensures s.max in s.samples || (s.max == 0.0 && forall x :: x in s.samples ==> x <= 0.0)
    ensures s.min <= 10000000000.0 && s.max >= 0.0
  {
    MeanTimes(s.samples);
    SquaresPositive(s.samples, s.mean);
  }

  /** Two runs over the same samples in any two orders end with the same statistics. */
  lemma OrderIrrelevant(s: Stat, s': Stat)
    requires s.Valid() && s'.Valid() && multiset(s.samples) == multiset(s'.samples)
    ensures s.n == s'.n && s.mean == s'.mean && s.m2 == s'.m2 && s.min == s'.min && s.max == s'.max
    ensures s.Variance() == s'.Variance()
  {
    AnyOrder(s.samples, s'.samples, s.mean);
    assert forall x :: x in s.samples <==> x in multiset(s.samples);
    assert forall x :: x in s'.samples <==> x in multiset(s'.samples);
  }
}
