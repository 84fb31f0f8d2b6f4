/** The rate summary of the usability study: a rate with its rounded 95% Wilson bounds. */
module WilsonInterval {

  datatype RateSummary = RateSummary(numerator: int, denominator: int, rate: real, lower95: real, upper95: real)

  const Z: real := 1.959963984540054

  /** `toFixed(3)` of a number that is not negative: the nearest thousandth, the greater of two. */
  function Rounded(value: real): (r: real) {
    (value * 1000.0 + 0.5).Floor as real / 1000.0
  }

  function Max(a: real, b: real): real { if a >= b then a else b }
  function Min(a: real, b: real): real { if a <= b then a else b }

  function Adjustment(n: real): (r: real)
    requires n > 0.0
    ensures r > 1.0
  {
    assert Z * Z / n > 0.0 by { Quotient(Z * Z, n); }
    1.0 + Z * Z / n
  }

  function Centre(rate: real, n: real): (r: real)
    requires n > 0.0
  {
    (rate + Z * Z / (2.0 * n)) / Adjustment(n)
  }

  /** What the square root is taken of. */
  function Radicand(rate: real, n: real): (r: real)
    requires n > 0.0
  {
    (rate * (1.0 - rate) + Z * Z / (4.0 * n)) / n
  }

  function Margin(root: real, n: real): (r: real)
    requires n > 0.0
  {
    Z * root / Adjustment(n)
  }

  /** `root` is what `Math.sqrt` gives for the radicand. */
  function Summary(numerator: int, denominator: int, root: real): (r: RateSummary) {
    if denominator <= 0 then RateSummary(0, 0, 0.0, 0.0, 0.0)
    else
      var n := denominator as real;
      var rate := numerator as real / n;
      var centre, margin := Centre(rate, n), Margin(root, n);
      RateSummary(numerator, denominator, Rounded(rate), Rounded(Max(0.0, centre - margin)),
          Rounded(Min(1.0, centre + margin)))
  }

  // ---------- arithmetic ----------

  lemma Quotient(x: real, y: real)
    requires y > 0.0
    ensures x / y * y == x && (x > 0.0 <==> x / y > 0.0) && (x >= 0.0 <==> x / y >= 0.0)
  {
  }

  lemma RoundedIsMonotone(x: real, y: real)
    requires x <= y
    ensures Rounded(x) <= Rounded(y)
  {
    assert (x * 1000.0 + 0.5).Floor <= (y * 1000.0 + 0.5).Floor;
  }

  lemma SquaresOrder(x: real, y: real)
    requires y >= 0.0 && x * x <= y * y
    ensures -y <= x <= y
  {
    assert (-x) * (-x) == x * x;
    if x > y {
      Bigger(x, y);
    } else if -x > y {
      Bigger(-x, y);
    }
  }

  lemma Bigger(x: real, y: real)
    requires x > y >= 0.0
    ensures x * x > y * y
  {
    assert x * x - y * y == (x - y) * (x + y);
    StrictlyPositive(x - y, x + y);
  }

  lemma StrictlyPositive(x: real, y: real)
    requires x > 0.0 && y > 0.0
    ensures x * y > 0.0
  {
  }

  lemma Positive(x: real, y: real)
    requires x >= 0.0 && y >= 0.0
    ensures x * y >= 0.0
  {
  }

  // ---------- the interval ----------

  ghost predicate IsRoot(root: real, rate: real, n: real)
    requires n > 0.0
  {
    root >= 0.0 && root * root == Radicand(rate, n)
  }

  /** The score equation that defines the Wilson bounds: x is as far from the rate as its own error allows. */
  ghost predicate OnScoreCurve(x: real, rate: real, n: real) {
    (rate - x) * (rate - x) * n == Z * Z * x * (1.0 - x)
  }

  /** With t for z squared over n: what the squared margin is before adjustment. */
  ghost predicate IsMargin(m: real, p: real, t: real) {
    m * m == t * p * (1.0 - p) + t * t / 4.0
  }

  /** The discriminant of the quadratic whose roots are the bounds. */
  ghost predicate IsDiscriminantRoot(m: real, p: real, t: real) {
    m * m == (p + t / 2.0) * (p + t / 2.0) - (1.0 + t) * (p * p)
  }


  lemma MarginSquared(rate: real, n: real, root: real, t: real)
    requires n > 0.0 && IsRoot(root, rate, n) && t == Z * Z / n
    ensures IsMargin(Z * root, rate, t)
  {
    var v := rate * (1.0 - rate);
    Quotient(Z * Z, n);
    assert Z * Z / (4.0 * n) == t / 4.0 by { Quarter(Z * Z, n); }
    assert root * root * n == v + t / 4.0 by { Quotient(v + t / 4.0, n); }
    assert (Z * root) * (Z * root) == Z * Z * (root * root);
    assert t * n * (root * root) == t * (root * root * n);
    assert t * (v + t / 4.0) == t * v + t * t / 4.0;
    assert t * v == t * rate * (1.0 - rate);
  }

  lemma Quarter(x: real, n: real)
    requires n > 0.0
    ensures x / (4.0 * n) == x / n / 4.0 && x / (2.0 * n) == x / n / 2.0
  {
    assert x / n / 4.0 * (4.0 * n) == x;
    assert x / n / 2.0 * (2.0 * n) == x;
  }

  /** The unadjusted numbers: centre c, margin m, and what they satisfy for rate p. */
  lemma Unadjusted(p: real, t: real, m: real)
    requires 0.0 <= p <= 1.0 && t > 0.0 && m >= 0.0 && IsMargin(m, p, t)
    ensures IsDiscriminantRoot(m, p, t) && IsDiscriminantRoot(-m, p, t)
    ensures var c := p + t / 2.0;
      && 0.0 <= c - m && c + m <= 1.0 + t
      && c - m <= p * (1.0 + t) <= c + m
  {
    var c := p + t / 2.0;
    assert c * c == p * p + p * t + t * t / 4.0;
    assert (1.0 + t) * (p * p) == p * p + t * (p * p);
    assert t * p * (1.0 - p) == p * t - t * (p * p);
    assert m * m == c * c - (1.0 + t) * (p * p);
    Positive(1.0 + t, p * p);
    SquaresOrder(m, c);
    assert (-m) * (-m) == m * m;
    var d := 1.0 + t - c;
    MirrorSquare(p, t);
    Positive(1.0 + t, (1.0 - p) * (1.0 - p));
    SquaresOrder(m, d);
    var e := p * (1.0 + t) - c;
    OffsetSquare(p, t);
    Positive(p, 1.0 - p);
    Positive(t * t, p * (1.0 - p));
    Positive(t, p * (1.0 - p));
    assert t * p * (1.0 - p) == t * (p * (1.0 - p));
    SquaresOrder(e, m);
  }

  lemma MirrorSquare(p: real, t: real)
    ensures var d := 1.0 + t - (p + t / 2.0);
      d * d == t * p * (1.0 - p) + t * t / 4.0 + (1.0 + t) * ((1.0 - p) * (1.0 - p))
  {
    var q := 1.0 - p;
    var d := q + t / 2.0;
    assert d * d == q * q + q * t + t * t / 4.0;
    assert (1.0 + t) * (q * q) == q * q + t * (q * q);
    assert t * p * q + t * (q * q) == t * q * (p + q);
  }

  lemma OffsetSquare(p: real, t: real)
    ensures var e := p * (1.0 + t) - (p + t / 2.0); e * e == t * t / 4.0 - t * t * (p * (1.0 - p))
  {
    assert p * (1.0 + t) - (p + t / 2.0) == t * (p - 0.5);
    assert (t * (p - 0.5)) * (t * (p - 0.5)) == t * t * ((p - 0.5) * (p - 0.5));
    assert (p - 0.5) * (p - 0.5) == 0.25 - p * (1.0 - p);
    assert t * t * (0.25 - p * (1.0 - p)) == t * t * 0.25 - t * t * (p * (1.0 - p));
  }

  /** A root of the quadratic is on the score curve. */
  lemma RootsSolve(p: real, n: real, t: real, c: real, m: real, x: real)
    requires n > 0.0 && t == Z * Z / n && t > 0.0 && c == p + t / 2.0 && IsDiscriminantRoot(m, p, t)
    requires x * (1.0 + t) == c + m
    ensures OnScoreCurve(x, p, n)
  {
    var a := 1.0 + t;
    assert (x * a - c) * (x * a - c) == m * m;
    assert (x * a - c) * (x * a - c) == x * a * (x * a) - 2.0 * c * (x * a) + c * c;
    assert x * a * (x * a) - 2.0 * c * (x * a) == a * (x * x * a - 2.0 * c * x);
    assert a * (x * x * a - 2.0 * c * x + p * p) == 0.0 by {
      assert a * (x * x * a - 2.0 * c * x + p * p) == a * (x * x * a - 2.0 * c * x) + a * (p * p);
    }
    assert x * x * a - 2.0 * c * x + p * p == 0.0;
    QuadraticIsCurve(p, n, t, c, x);
  }

  lemma QuadraticIsCurve(p: real, n: real, t: real, c: real, x: real)
    requires n > 0.0 && t == Z * Z / n && c == p + t / 2.0 && x * x * (1.0 + t) - 2.0 * c * x + p * p == 0.0
    ensures OnScoreCurve(x, p, n)
  {
    assert x * x * (1.0 + t) == x * x + t * (x * x);
    assert 2.0 * c * x == 2.0 * p * x + t * x;
    assert (p - x) * (p - x) == p * p - 2.0 * p * x + x * x;
    assert (p - x) * (p - x) == t * x - t * (x * x);
    assert t * x - t * (x * x) == t * (x * (1.0 - x));
    Quotient(Z * Z, n);
    assert t * (x * (1.0 - x)) * n == t * n * (x * (1.0 - x));
  }

  /** Before rounding: both bounds solve the score equation, lie within 0 and 1, and have the rate between them. */
  lemma BoundsMean(rate: real, n: real, root: real)
    requires n > 0.0 && 0.0 <= rate <= 1.0 && IsRoot(root, rate, n)
    ensures var lower, upper := Centre(rate, n) - Margin(root, n), Centre(rate, n) + Margin(root, n);
      && OnScoreCurve(lower, rate, n) && OnScoreCurve(upper, rate, n)
      && 0.0 <= lower <= rate <= upper <= 1.0
  {
    hide Centre, Margin, OnScoreCurve, IsRoot, IsMargin;
    var t, m := Z * Z / n, Z * root;
    Quotient(Z * Z, n);
    Shape(rate, n, root, t);
    MarginSquared(rate, n, root, t);
    RootNotNegative(rate, n, root);
    Positive(Z, root);
    Spread(rate + t / 2.0, m, 1.0 + t);
    ScaledBounds(rate, n, t, m, Centre(rate, n) - Margin(root, n), Centre(rate, n) + Margin(root, n));
  }

  lemma ScaledBounds(p: real, n: real, t: real, m: real, lower: real, upper: real)
    requires n > 0.0 && 0.0 <= p <= 1.0 && t == Z * Z / n && t > 0.0 && m >= 0.0
    requires IsMargin(m, p, t)
    requires lower * (1.0 + t) == p + t / 2.0 - m && upper * (1.0 + t) == p + t / 2.0 + m
    ensures OnScoreCurve(lower, p, n) && OnScoreCurve(upper, p, n) && 0.0 <= lower <= p <= upper <= 1.0
  {
    hide OnScoreCurve, IsMargin, IsDiscriminantRoot;
    var c := p + t / 2.0;
    Unadjusted(p, t, m);
    RootsSolve(p, n, t, c, m, upper);
    RootsSolve(p, n, t, c, -m, lower);
    Between(p, c, m, 1.0 + t, lower, upper);
  }

  lemma RootNotNegative(rate: real, n: real, root: real)
    requires n > 0.0 && IsRoot(root, rate, n)
    ensures root >= 0.0
  {
  }

  lemma Shape(rate: real, n: real, root: real, t: real)
    requires n > 0.0 && t == Z * Z / n && t > 0.0
    ensures Centre(rate, n) == (rate + t / 2.0) / (1.0 + t) && Margin(root, n) == Z * root / (1.0 + t)
  {
    Quarter(Z * Z, n);
  }

  lemma Spread(c: real, m: real, a: real)
    requires a > 0.0
    ensures (c / a - m / a) * a == c - m && (c / a + m / a) * a == c + m
  {
    Quotient(c, a);
    Quotient(m, a);
    assert (c / a - m / a) * a == c / a * a - m / a * a;
    assert (c / a + m / a) * a == c / a * a + m / a * a;
  }

  lemma Between(rate: real, c: real, m: real, a: real, lower: real, upper: real)
    requires a > 0.0 && 0.0 <= c - m <= rate * a <= c + m <= a && lower * a == c - m && upper * a == c + m
    ensures 0.0 <= lower <= rate <= upper <= 1.0
  {
    assert 0.0 * a == 0.0 && 1.0 * a == a;
    Cancel(0.0, lower, a);
    Cancel(lower, rate, a);
    Cancel(rate, upper, a);
    Cancel(upper, 1.0, a);
  }

  lemma Cancel(x: real, y: real, a: real)
    requires a > 0.0 && x * a <= y * a
    ensures x <= y
  {
    assert (x - y) * a == x * a - y * a;
    if x > y {
      StrictlyPositive(x - y, a);
    }
  }

  /** The rounded bounds hold the rounded rate between them, within 0 and 1. */
  lemma RoundedBounds(numerator: int, denominator: int, root: real)
    requires 0 <= numerator <= denominator
        && (denominator > 0 ==> IsRoot(root, numerator as real / denominator as real, denominator as real))
    ensures var s := Summary(numerator, denominator, root); 0.0 <= s.lower95 <= s.rate <= s.upper95 <= 1.0
  {
    if denominator > 0 {
      var n := denominator as real;
      var rate := numerator as real / n;
      Quotient(numerator as real, n);
      Cancel(rate, 1.0, n);
      hide Centre, Margin, Rounded;
      BoundsMean(rate, n, root);
      RoundedEnds();
      RoundedIsMonotone(0.0, Max(0.0, Centre(rate, n) - Margin(root, n)));
      RoundedIsMonotone(Max(0.0, Centre(rate, n) - Margin(root, n)), rate);
      RoundedIsMonotone(rate, Min(1.0, Centre(rate, n) + Margin(root, n)));
      RoundedIsMonotone(Min(1.0, Centre(rate, n) + Margin(root, n)), 1.0);
    }
  }

  lemma RoundedEnds()
    ensures Rounded(0.0) == 0.0 && Rounded(1.0) == 1.0
  {
  }
}
