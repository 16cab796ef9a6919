/**
  The polynomial, Back and Bounce easing curves, in exact real arithmetic.

  Each curve takes the elapsed time t, the start value b, the change c and the duration d > 0.
 */
module Easing {
  datatype Family = Quad | Cubic | Quart | Quint {
    function Degree(): nat {
      match this
      case Quad => 2
      case Cubic => 3
      case Quart => 4
      case Quint => 5
    }
  }

  /** The left-to-right product c * t * ... * t with n factors t. */
  function Times(c: real, t: real, n: nat): real {
    if n == 0 then c else Times(c, t, n - 1) * t
  }

  // Each curve once t has been divided by d, or by d/2, and then itself.

  function InAt(f: Family, t: real, b: real, c: real): real {
    Times(c, t, f.Degree()) + b
  }

  function EaseIn(f: Family, t: real, b: real, c: real, d: real): real
    requires d > 0.0
  {
    InAt(f, t / d, b, c)
  }

  function OutAt(f: Family, t: real, b: real, c: real): real {
    var v := t - 1.0;
    match f
    case Quad => -c * t * (t - 2.0) + b
    case Cubic => c * (Times(v, v, 2) + 1.0) + b
    case Quart => -c * (Times(v, v, 3) - 1.0) + b
    case Quint => c * (Times(v, v, 4) + 1.0) + b
  }

  function EaseOut(f: Family, t: real, b: real, c: real, d: real): real
    requires d > 0.0
  {
    OutAt(f, t / d, b, c)
  }

  function InOutAt(f: Family, t: real, b: real, c: real): real {
    var v := t - 2.0;
    if t < 1.0 then Times(c / 2.0, t, f.Degree()) + b
    else
      match f
      case Quad => -c / 2.0 * ((t - 1.0) * (t - 1.0 - 2.0) - 1.0) + b
      case Cubic => c / 2.0 * (Times(v, v, 2) + 2.0) + b
      case Quart => -c / 2.0 * (Times(v, v, 3) - 2.0) + b
      case Quint => c / 2.0 * (Times(v, v, 4) + 2.0) + b
  }

  function EaseInOut(f: Family, t: real, b: real, c: real, d: real): real
    requires d > 0.0
  {
    InOutAt(f, t / (d / 2.0), b, c)
  }

  // ---------- One shape for all families ----------

  function Power(u: real, n: nat): real {
    if n == 0 then 1.0 else Power(u, n - 1) * u
  }

  /** The In-Out shape on [0, 2], a power on each half of the interval. */
  function Halves(u: real, n: nat): real {
    if u < 1.0 then Power(u, n) / 2.0 else 1.0 - Power(2.0 - u, n) / 2.0
  }

  lemma Reassociate(c: real, p: real, u: real)
    ensures c * p * u == c * (p * u)
  {
  }

  lemma {:induction false} TimesScales(c: real, u: real, n: nat)
    ensures Times(c, u, n) == c * Power(u, n)
  {
    if n > 0 {
      TimesScales(c, u, n - 1);
      Reassociate(c, Power(u, n - 1), u);
    }
  }

  lemma FirstPower(u: real)
    ensures Power(u, 1) == u
  {
    assert Power(u, 0) == 1.0;
  }

  lemma {:induction false} TimesSelf(v: real, n: nat)
    ensures Times(v, v, n) == Power(v, n + 1)
  {
    if n > 0 { TimesSelf(v, n - 1); } else { FirstPower(v); }
  }

  lemma SignedProduct(p: real, v: real)
    ensures p * (-v) == -(p * v) && (-p) * (-v) == p * v
  {
  }

  lemma {:induction false} PowerNegated(v: real, n: nat)
    ensures Power(-v, n) == if n % 2 == 0 then Power(v, n) else -Power(v, n)
  {
    if n > 0 {
      PowerNegated(v, n - 1);
      SignedProduct(Power(v, n - 1), v);
    }
  }

  /** v * ... * v for v = u - k, as a signed power of k - u. */
  lemma Mirrored(u: real, k: real, n: nat)
    requires n > 0
    ensures Times(u - k, u - k, n - 1) == if n % 2 == 0 then Power(k - u, n) else -Power(k - u, n)
  {
    TimesSelf(u - k, n - 1);
    PowerNegated(k - u, n);
    assert -(k - u) == u - k;
  }

  lemma SquareOf(w: real)
    ensures Power(w, 2) == w * w
  {
    FirstPower(w);
  }

  lemma OutProducts(c: real, u: real, p: real)
    ensures -c * u * (u - 2.0) == c * (1.0 - (1.0 - u) * (1.0 - u))
    ensures c * (-p + 1.0) == c * (1.0 - p) && -c * (p - 1.0) == c * (1.0 - p)
  {
  }

  lemma HalfProducts(c: real, u: real, p: real)
    ensures -c / 2.0 * ((u - 1.0) * (u - 1.0 - 2.0) - 1.0) == c * (1.0 - (2.0 - u) * (2.0 - u) / 2.0)
    ensures c / 2.0 * (-p + 2.0) == c * (1.0 - p / 2.0) && -c / 2.0 * (p - 2.0) == c * (1.0 - p / 2.0)
    ensures c / 2.0 * p == c * (p / 2.0)
  {
    var x := (2.0 - u) * (2.0 - u);
    assert (u - 1.0) * (u - 1.0 - 2.0) - 1.0 == x - 2.0;
    assert -c / 2.0 * (x - 2.0) == c * (1.0 - x / 2.0);
  }

  lemma InShape(f: Family, u: real, b: real, c: real)
    ensures InAt(f, u, b, c) == b + c * Power(u, f.Degree())
  {
    TimesScales(c, u, f.Degree());
  }

  lemma OutShape(f: Family, u: real, b: real, c: real)
    ensures OutAt(f, u, b, c) == b + c * (1.0 - Power(1.0 - u, f.Degree()))
  {
    Mirrored(u, 1.0, f.Degree());
    SquareOf(1.0 - u);
    OutProducts(c, u, Power(1.0 - u, f.Degree()));
  }

  lemma FirstHalf(f: Family, u: real, b: real, c: real)
    requires u < 1.0
    ensures InOutAt(f, u, b, c) == b + c * Halves(u, f.Degree())
  {
    TimesScales(c / 2.0, u, f.Degree());
    HalfProducts(c, u, Power(u, f.Degree()));
  }

  lemma SecondHalf(f: Family, u: real, b: real, c: real)
    requires u >= 1.0
    ensures InOutAt(f, u, b, c) == b + c * Halves(u, f.Degree())
  {
    Mirrored(u, 2.0, f.Degree());
    SquareOf(2.0 - u);
    HalfProducts(c, u, Power(2.0 - u, f.Degree()));
  }

  lemma InOutShape(f: Family, u: real, b: real, c: real)
    ensures InOutAt(f, u, b, c) == b + c * Halves(u, f.Degree())
  {
    if u < 1.0 { FirstHalf(f, u, b, c); } else { SecondHalf(f, u, b, c); }
  }

  // ---------- Monotone, anchored, mirrored ----------

  lemma ScaleStrict(c: real, x: real, y: real)
    requires c > 0.0 && x < y
    ensures c * x < c * y
  {
  }

  lemma ProductStrict(p: real, q: real, u: real, v: real)
    requires 0.0 <= p < q && 0.0 <= u < v
    ensures 0.0 <= p * u < q * v
  {
    assert p * u <= q * u && q * u < q * v;
  }

  lemma {:induction false} PowerStrict(u: real, v: real, n: nat)
    requires 0.0 <= u < v && n > 0
    ensures 0.0 <= Power(u, n) < Power(v, n)
  {
    if n == 1 {
      FirstPower(u);
      FirstPower(v);
    } else {
      PowerStrict(u, v, n - 1);
      ProductStrict(Power(u, n - 1), Power(v, n - 1), u, v);
    }
  }

  lemma {:induction false} PowerOfUnit(n: nat)
    requires n > 0
    ensures Power(0.0, n) == 0.0 && Power(1.0, n) == 1.0
  {
    if n > 1 {
      PowerOfUnit(n - 1);
    } else {
      FirstPower(0.0);
      FirstPower(1.0);
    }
  }

  lemma Quotient(x: real, d: real) returns (q: real)
    requires d > 0.0
    ensures q == x / d && q * d == x
  {
    q := x / d;
  }

  lemma SameQuotient(d: real, q: real, r: real)
    requires d > 0.0 && q * d == r * d
    ensures q == r
  {
    assert (r - q) * d == 0.0;
  }

  lemma FactorSign(x: real, y: real)
    requires y > 0.0
    ensures x * y >= 0.0 ==> x >= 0.0
    ensures x * y > 0.0 ==> x > 0.0
  {
  }

  lemma FractionStrict(s: real, t: real, d: real)
    requires d > 0.0 && 0.0 <= s < t <= d
    ensures 0.0 <= s / d < t / d <= 1.0
  {
    var u := Quotient(s, d);
    var v := Quotient(t, d);
    FactorSign(u, d);
    assert (v - u) * d == t - s && (1.0 - v) * d == d - t;
    FactorSign(v - u, d);
    FactorSign(1.0 - v, d);
  }

  lemma HalvesStrict(u: real, v: real, n: nat)
    requires 0.0 <= u < v <= 2.0 && n > 0
    ensures Halves(u, n) < Halves(v, n)
  {
    PowerOfUnit(n);
    if v < 1.0 {
      PowerStrict(u, v, n);
    } else if u >= 1.0 {
      PowerStrict(2.0 - v, 2.0 - u, n);
    } else {
      // across the seam: below one half before it, at least one half from it on
      PowerStrict(u, 1.0, n);
      if v > 1.0 { PowerStrict(2.0 - v, 1.0, n); }
    }
  }

  lemma QuotientIs(x: real, d: real, q: real)
    requires d > 0.0 && q * d == x
    ensures x / d == q
  {
    var r := Quotient(x, d);
    SameQuotient(d, r, q);
  }

  lemma HalfDuration(t: real, d: real)
    requires d > 0.0
    ensures t / (d / 2.0) == 2.0 * (t / d)
  {
    var q := Quotient(t, d);
    var u := Quotient(t, d / 2.0);
    assert u * (d / 2.0) == (2.0 * q) * (d / 2.0);
    SameQuotient(d / 2.0, u, 2.0 * q);
  }

  lemma Remaining(t: real, d: real)
    requires d > 0.0
    ensures (d - t) / d == 1.0 - t / d
  {
    var q := Quotient(t, d);
    var u := Quotient(d - t, d);
    SameQuotient(d, u, 1.0 - q);
  }

  lemma InAtIncreases(f: Family, u: real, v: real, b: real, c: real)
    requires c > 0.0 && 0.0 <= u < v
    ensures InAt(f, u, b, c) < InAt(f, v, b, c)
  {
    InShape(f, u, b, c);
    InShape(f, v, b, c);
    PowerStrict(u, v, f.Degree());
    ScaleStrict(c, Power(u, f.Degree()), Power(v, f.Degree()));
  }

  lemma InIncreases(f: Family, s: real, t: real, b: real, c: real, d: real)
    requires d > 0.0 && c > 0.0 && 0.0 <= s < t <= d
    ensures EaseIn(f, s, b, c, d) < EaseIn(f, t, b, c, d)
  {
    FractionStrict(s, t, d);
    InAtIncreases(f, s / d, t / d, b, c);
  }

  lemma InOutAtIncreases(f: Family, u: real, v: real, b: real, c: real)
    requires c > 0.0 && 0.0 <= u < v <= 2.0
    ensures InOutAt(f, u, b, c) < InOutAt(f, v, b, c)
  {
    InOutShape(f, u, b, c);
    InOutShape(f, v, b, c);
    HalvesStrict(u, v, f.Degree());
    ScaleStrict(c, Halves(u, f.Degree()), Halves(v, f.Degree()));
  }

  lemma DoubledFractions(s: real, t: real, d: real) returns (u: real, v: real)
    requires d > 0.0 && 0.0 <= s < t <= d
    ensures u == s / (d / 2.0) && v == t / (d / 2.0) && 0.0 <= u < v <= 2.0
  {
    FractionStrict(s, t, d);
    HalfDuration(s, d);
    HalfDuration(t, d);
    u, v := s / (d / 2.0), t / (d / 2.0);
  }

  lemma InOutIncreases(f: Family, s: real, t: real, b: real, c: real, d: real)
    requires d > 0.0 && c > 0.0 && 0.0 <= s < t <= d
    ensures EaseInOut(f, s, b, c, d) < EaseInOut(f, t, b, c, d)
  {
    var u, v := DoubledFractions(s, t, d);
    InOutAtIncreases(f, u, v, b, c);
  }

  lemma SplitProduct(c: real, x: real, y: real)
    requires x + y == 1.0
    ensures c * x + c * y == c
  {
    assert c * x + c * y == c * (x + y);
  }

  lemma InOutAtMirror(f: Family, u: real, b: real, c: real)
    ensures InAt(f, u, b, c) + OutAt(f, 1.0 - u, b, c) == 2.0 * b + c
  {
    InShape(f, u, b, c);
    OutShape(f, 1.0 - u, b, c);
    var p := Power(u, f.Degree());
    SplitProduct(c, p, 1.0 - p);
  }

  /** In and Out mirror each other. */
  lemma InOutMirrors(f: Family, t: real, b: real, c: real, d: real)
    requires d > 0.0
    ensures EaseIn(f, t, b, c, d) + EaseOut(f, d - t, b, c, d) == 2.0 * b + c
  {
    Remaining(t, d);
    InOutAtMirror(f, t / d, b, c);
  }

  /** All twelve curves are strictly increasing over the duration, the InOut ones across their seam too. */
  lemma CurvesIncrease(f: Family, s: real, t: real, b: real, c: real, d: real)
    requires d > 0.0 && c > 0.0 && 0.0 <= s < t <= d
    ensures EaseIn(f, s, b, c, d) < EaseIn(f, t, b, c, d)
    ensures EaseOut(f, s, b, c, d) < EaseOut(f, t, b, c, d)
    ensures EaseInOut(f, s, b, c, d) < EaseInOut(f, t, b, c, d)
  {
    InIncreases(f, s, t, b, c, d);
    InIncreases(f, d - t, d - s, b, c, d);
    InOutMirrors(f, d - s, b, c, d);
    InOutMirrors(f, d - t, b, c, d);
    InOutIncreases(f, s, t, b, c, d);
  }

  lemma HalvesMirror(u: real, n: nat)
    requires n > 0
    ensures Halves(u, n) + Halves(2.0 - u, n) == 1.0
  {
    PowerOfUnit(n);
  }

  lemma InOutAtSelfMirror(f: Family, u: real, b: real, c: real)
    ensures InOutAt(f, u, b, c) + InOutAt(f, 2.0 - u, b, c) == 2.0 * b + c
  {
    InOutShape(f, u, b, c);
    InOutShape(f, 2.0 - u, b, c);
    HalvesMirror(u, f.Degree());
    SplitProduct(c, Halves(u, f.Degree()), Halves(2.0 - u, f.Degree()));
  }

  lemma DoubledRemaining(t: real, d: real) returns (u: real)
    requires d > 0.0
    ensures u == t / (d / 2.0) && (d - t) / (d / 2.0) == 2.0 - u
  {
    Remaining(t, d);
    HalfDuration(t, d);
    HalfDuration(d - t, d);
    u := t / (d / 2.0);
  }

  /** InOut mirrors itself. */
  lemma InOutSelfMirrors(f: Family, t: real, b: real, c: real, d: real)
    requires d > 0.0
    ensures EaseInOut(f, t, b, c, d) + EaseInOut(f, d - t, b, c, d) == 2.0 * b + c
  {
    var u := DoubledRemaining(t, d);
    InOutAtSelfMirror(f, u, b, c);
  }

  lemma UnitFractions(d: real)
    requires d > 0.0
    ensures 0.0 / d == 0.0 && d / d == 1.0
  {
    QuotientIs(0.0, d, 0.0);
    QuotientIs(d, d, 1.0);
  }

  /** Every curve runs from b to b + c. */
  lemma CurvesEnds(f: Family, b: real, c: real, d: real)
    requires d > 0.0
    ensures EaseIn(f, 0.0, b, c, d) == EaseOut(f, 0.0, b, c, d) == EaseInOut(f, 0.0, b, c, d) == b
    ensures EaseIn(f, d, b, c, d) == EaseOut(f, d, b, c, d) == EaseInOut(f, d, b, c, d) == b + c
  {
    PowerOfUnit(f.Degree());
    UnitFractions(d);
    InShape(f, 0.0, b, c);
    InShape(f, 1.0, b, c);
    InOutMirrors(f, 0.0, b, c, d);
    InOutMirrors(f, d, b, c, d);
    UnitFractions(d / 2.0);
    InOutShape(f, 0.0, b, c);
    InOutSelfMirrors(f, 0.0, b, c, d);
  }

  lemma PowersOfHalf(c: real, w: real)
    ensures Times(c, w, 1) == c * w && Times(c, w, 2) == c * w * w && Times(c, w, 3) == c * w * w * w
    ensures Times(c, w, 4) == c * w * w * w * w && Times(c, w, 5) == c * w * w * w * w * w
  {
    assert Times(c, w, 2) == Times(c, w, 1) * w && Times(c, w, 1) == Times(c, w, 0) * w;
    assert Times(c, w, 4) == Times(c, w, 3) * w && Times(c, w, 3) == Times(c, w, 2) * w;
  }

  /** How far the curves are at a time, in numbers: half-way In is at 1/4, 1/8, 1/16 and 1/32, Out as
      far from the end, and InOut at a quarter of the time is half as far as In half-way. */
  lemma HalfWayValues()
    ensures InAt(Quad, 0.5, 0.0, 1.0) == 0.25 && InAt(Cubic, 0.5, 0.0, 1.0) == 0.125
    ensures InAt(Quart, 0.5, 0.0, 1.0) == 0.0625 && InAt(Quint, 0.5, 0.0, 1.0) == 0.03125
    ensures OutAt(Quad, 0.5, 0.0, 1.0) == 0.75 && OutAt(Cubic, 0.5, 0.0, 1.0) == 0.875
    ensures OutAt(Quart, 0.5, 0.0, 1.0) == 0.9375 && OutAt(Quint, 0.5, 0.0, 1.0) == 0.96875
    ensures InOutAt(Quad, 0.5, 0.0, 1.0) == 0.125 && InOutAt(Cubic, 0.5, 0.0, 1.0) == 0.0625
    ensures InOutAt(Quart, 0.5, 0.0, 1.0) == 0.03125 && InOutAt(Quint, 0.5, 0.0, 1.0) == 0.015625
  {
    PowersOfHalf(1.0, 0.5);
    PowersOfHalf(0.5, 0.5);
    PowersOfHalf(-0.5, -0.5);
  }

  // ---------- Back ----------

  function EaseInBack(t: real, b: real, c: real, d: real, s: real): real
    requires d > 0.0
  {
    var u := t / d;
    c * u * u * ((s + 1.0) * u - s) + b
  }

  function EaseOutBack(t: real, b: real, c: real, d: real, s: real): real
    requires d > 0.0
  {
    var u := t / d - 1.0;
    c * (u * u * ((s + 1.0) * u + s) + 1.0) + b
  }

  function BackShape(u: real, s: real): real {
    u * u * ((s + 1.0) * u - s)
  }

  /** How far below the start the shape may dip. */
  function Dip(s: real): real
    requires s >= 0.0
  {
    4.0 * s * s * s / (27.0 * (s + 1.0) * (s + 1.0))
  }

  /** With k = s + 1 and the turning point m = 2s / 3k, the cubic exceeds its minimum by k(u - m)^2 (u + m/2). */
  lemma BackCubic(u: real, s: real, m: real)
    requires s >= 0.0 && m * (3.0 * (s + 1.0)) == 2.0 * s
    ensures BackShape(u, s) + (s + 1.0) * m * m * m / 2.0 == (s + 1.0) * ((u - m) * (u - m)) * (u + m / 2.0)
  {
    var k := s + 1.0;
    var km := k * m;
    assert 3.0 * km == 2.0 * s;
    assert (u - m) * (u - m) * (u + m / 2.0) == u * u * u - 1.5 * m * u * u + m * m * m / 2.0;
    assert k * (u * u * u - 1.5 * m * u * u + m * m * m / 2.0) == k * u * u * u - 1.5 * km * u * u + km * m * m / 2.0;
  }

  /** Where the curve turns, as a fraction of the duration. */
  function TurningPoint(s: real): real
    requires s >= 0.0
  {
    2.0 * s / (3.0 * (s + 1.0))
  }

  lemma Cubed(k: real, m: real, s: real)
    requires m * (3.0 * k) == 2.0 * s
    ensures k * m * m * m / 2.0 * (27.0 * k * k) == 4.0 * s * s * s
  {
    var x := 3.0 * k * m;
    assert x == 2.0 * s;
    assert x * x * x == 27.0 * (k * k * k) * (m * m * m) by {
      assert x * x == 9.0 * (k * k) * (m * m);
      assert 9.0 * (k * k) * (m * m) * (3.0 * k * m) == 27.0 * (k * k * k) * (m * m * m);
    }
    assert (2.0 * s) * (2.0 * s) * (2.0 * s) == 8.0 * (s * s * s);
    assert k * m * m * m * (k * k) == (k * k * k) * (m * m * m);
  }

  lemma TurningDepth(s: real)
    requires s >= 0.0
    ensures var m := TurningPoint(s);
            0.0 <= m < 1.0 && m * (3.0 * (s + 1.0)) == 2.0 * s && (s + 1.0) * m * m * m / 2.0 == Dip(s)
  {
    var k, m := s + 1.0, TurningPoint(s);
    assert m * (3.0 * k) == 2.0 * s;
    FactorSign(m, 3.0 * k);
    assert (1.0 - m) * (3.0 * k) == s + 3.0;
    FactorSign(1.0 - m, 3.0 * k);
    Cubed(k, m, s);
    QuotientIs(4.0 * s * s * s, 27.0 * k * k, k * m * m * m / 2.0);
  }

  lemma Products(x: real, y: real)
    requires x >= 0.0 && y >= 0.0
    ensures x * y >= 0.0
  {
  }

  lemma Square(x: real)
    ensures x * x >= 0.0
  {
  }

  lemma CubicExcess(u: real, k: real, m: real)
    requires k >= 0.0 && m >= 0.0
    ensures u >= 0.0 ==> k * ((u - m) * (u - m)) * (u + m / 2.0) >= 0.0
    ensures u == m ==> k * ((u - m) * (u - m)) * (u + m / 2.0) == 0.0
  {
    Square(u - m);
    var x := (u - m) * (u - m);
    Products(k, x);
    if u >= 0.0 { Products(k * x, u + m / 2.0); }
  }

  lemma BackShapeDips(u: real, s: real)
    requires s >= 0.0
    ensures u >= 0.0 ==> BackShape(u, s) >= -Dip(s)
    ensures BackShape(TurningPoint(s), s) == -Dip(s)
  {
    var m := TurningPoint(s);
    TurningDepth(s);
    BackCubic(u, s, m);
    CubicExcess(u, s + 1.0, m);
    BackCubic(m, s, m);
    CubicExcess(m, s + 1.0, m);
  }

  lemma InBackShape(t: real, b: real, c: real, d: real, s: real)
    requires d > 0.0
    ensures EaseInBack(t, b, c, d, s) == c * BackShape(t / d, s) + b
  {
    var u := t / d;
    assert c * u * u == c * (u * u);
  }

  lemma ScaledDip(c: real, x: real, y: real)
    requires c >= 0.0
    ensures x >= -y ==> c * x >= -(c * y)
    ensures x == -y ==> c * x == -(c * y)
  {
    if x >= -y { Products(c, x + y); }
    assert c * (x + y) == c * x + c * y;
  }

  lemma BackTurns(b: real, c: real, d: real, s: real)
    requires d > 0.0 && c >= 0.0 && s >= 0.0
    ensures EaseInBack(TurningPoint(s) * d, b, c, d, s) == b - c * Dip(s)
  {
    var m := TurningPoint(s);
    QuotientIs(m * d, d, m);
    InBackShape(m * d, b, c, d, s);
    BackShapeDips(m, s);
    ScaledDip(c, BackShape(m, s), Dip(s));
  }

  lemma TurnsWithin(d: real, s: real)
    requires d > 0.0 && s >= 0.0
    ensures 0.0 <= TurningPoint(s) * d <= d
  {
    var m := TurningPoint(s);
    TurningDepth(s);
    Products(m, d);
    Products(1.0 - m, d);
  }

  lemma BackBounded(t: real, b: real, c: real, d: real, s: real)
    requires d > 0.0 && c >= 0.0 && s >= 0.0 && 0.0 <= t
    ensures EaseInBack(t, b, c, d, s) >= b - c * Dip(s)
  {
    var u := Quotient(t, d);
    FactorSign(u, d);
    InBackShape(t, b, c, d, s);
    BackShapeDips(u, s);
    ScaledDip(c, BackShape(u, s), Dip(s));
  }

  /** easeInBack never dips below b by more than c times the dip, and does dip that far. */
  lemma BackUndershoot(t: real, b: real, c: real, d: real, s: real)
    requires d > 0.0 && c >= 0.0 && s >= 0.0 && 0.0 <= t
    ensures EaseInBack(t, b, c, d, s) >= b - c * Dip(s)
    ensures 0.0 <= TurningPoint(s) * d <= d && EaseInBack(TurningPoint(s) * d, b, c, d, s) == b - c * Dip(s)
  {
    BackBounded(t, b, c, d, s);
    BackTurns(b, c, d, s);
    TurnsWithin(d, s);
  }

  /** easeOutBack is easeInBack mirrored. */
  lemma BackMirrors(t: real, b: real, c: real, d: real, s: real)
    requires d > 0.0
    ensures EaseOutBack(t, b, c, d, s) + EaseInBack(d - t, b, c, d, s) == 2.0 * b + c
  {
    Remaining(t, d);
    var v := t / d - 1.0;
    var w := (d - t) / d;
    assert w == -v;
    InBackShape(d - t, b, c, d, s);
    assert w * w == v * v && (s + 1.0) * w - s == -((s + 1.0) * v + s);
    var x, y := v * v, (s + 1.0) * v + s;
    assert x * (-y) == -(x * y);
    assert c * (-(x * y)) == -(c * (x * y));
    assert c * (x * y + 1.0) == c * (x * y) + c;
  }

  /** Both Back curves run from b to b + c; without overshoot easeInBack is easeInCubic. */
  lemma BackEnds(t: real, b: real, c: real, d: real, s: real)
    requires d > 0.0
    ensures EaseInBack(0.0, b, c, d, s) == b && EaseInBack(d, b, c, d, s) == b + c
    ensures EaseOutBack(0.0, b, c, d, s) == b && EaseOutBack(d, b, c, d, s) == b + c
    ensures EaseInBack(t, b, c, d, 0.0) == EaseIn(Cubic, t, b, c, d)
  {
    UnitFractions(d);
    var u := t / d;
    assert Times(c, u, 3) == c * u * u * u by {
      assert Times(c, u, 1) == c * u && Times(c, u, 2) == c * u * u;
    }
    assert 0.0 * 0.0 * ((s + 1.0) * 0.0 - s) == 0.0;
  }

  // ---------- Bounce ----------

  /** The four parabolas of easeOutBounce. */
  function BouncePiece(k: nat, u: real): real {
    if k == 0 then 7.5625 * u * u
    else if k == 1 then 7.5625 * (u - 1.5 / 2.75) * (u - 1.5 / 2.75) + 0.75
    else if k == 2 then 7.5625 * (u - 2.25 / 2.75) * (u - 2.25 / 2.75) + 0.9375
    else 7.5625 * (u - 2.625 / 2.75) * (u - 2.625 / 2.75) + 0.984375
  }

  function OutBounceAt(u: real, b: real, c: real): real {
    if u < 1.0 / 2.75 then c * BouncePiece(0, u) + b
    else if u < 2.0 / 2.75 then c * BouncePiece(1, u) + b
    else if u < 2.5 / 2.75 then c * BouncePiece(2, u) + b
    else c * BouncePiece(3, u) + b
  }

  function EaseOutBounce(t: real, b: real, c: real, d: real): real
    requires d > 0.0
  {
    OutBounceAt(t / d, b, c)
  }

  function EaseInBounce(t: real, b: real, c: real, d: real): real
    requires d > 0.0
  {
    c - EaseOutBounce(d - t, 0.0, c, d) + b
  }

  function EaseInOutBounce(t: real, b: real, c: real, d: real): real
    requires d > 0.0
  {
    if t < d / 2.0 then EaseInBounce(t * 2.0, 0.0, c, d) * 0.5 + b
    else EaseOutBounce(t * 2.0 - d, 0.0, c, d) * 0.5 + c * 0.5 + b
  }

  /** Adjacent parabolas meet at the break points, at full height. */
  lemma BounceSeams()
    ensures BouncePiece(0, 1.0 / 2.75) == BouncePiece(1, 1.0 / 2.75) == 1.0
    ensures BouncePiece(1, 2.0 / 2.75) == BouncePiece(2, 2.0 / 2.75) == 1.0
    ensures BouncePiece(2, 2.5 / 2.75) == BouncePiece(3, 2.5 / 2.75) == 1.0
    ensures BouncePiece(0, 0.0) == 0.0 && BouncePiece(3, 1.0) == 1.0
  {
  }

  lemma SquareIsPositive(x: real)
    ensures x * x >= 0.0 && (x * x == 0.0 <==> x == 0.0)
  {
    if x > 0.0 {
      ProductStrict(0.0, x, 0.0, x);
    } else if x < 0.0 {
      ProductStrict(0.0, -x, 0.0, -x);
    }
  }

  lemma PieceAbove(u: real, m: real, h: real)
    ensures var y := 7.5625 * (u - m) * (u - m) + h;
            y >= h && (y == h <==> u == m)
  {
    var x := u - m;
    SquareIsPositive(x);
    assert 7.5625 * x * x == 7.5625 * (x * x);
  }

  /** The four parabolas touch 0, 3/4, 15/16 and 63/64 of the way at their own middle and nowhere else. */
  lemma BounceBottoms(u: real)
    ensures BouncePiece(0, u) >= 0.0 && (BouncePiece(0, u) == 0.0 <==> u == 0.0)
    ensures BouncePiece(1, u) >= 0.75 && (BouncePiece(1, u) == 0.75 <==> u == 1.5 / 2.75)
    ensures BouncePiece(2, u) >= 0.9375 && (BouncePiece(2, u) == 0.9375 <==> u == 2.25 / 2.75)
    ensures BouncePiece(3, u) >= 0.984375 && (BouncePiece(3, u) == 0.984375 <==> u == 2.625 / 2.75)
  {
    PieceAbove(u, 0.0, 0.0);
    PieceAbove(u, 1.5 / 2.75, 0.75);
    PieceAbove(u, 2.25 / 2.75, 0.9375);
    PieceAbove(u, 2.625 / 2.75, 0.984375);
  }

  /** The curve itself at its start, at the three bottoms, at the three bounces and at its end. */
  lemma BounceVisits(b: real, c: real)
    ensures OutBounceAt(0.0, b, c) == b && OutBounceAt(1.0, b, c) == b + c
    ensures OutBounceAt(1.0 / 2.75, b, c) == OutBounceAt(2.0 / 2.75, b, c) == OutBounceAt(2.5 / 2.75, b, c) == b + c
    ensures OutBounceAt(1.5 / 2.75, b, c) == b + 0.75 * c
    ensures OutBounceAt(2.25 / 2.75, b, c) == b + 0.9375 * c
    ensures OutBounceAt(2.625 / 2.75, b, c) == b + 0.984375 * c
  {
  }

  lemma SquareWithin(x: real, w: real)
    requires -w <= x <= w
    ensures 0.0 <= x * x <= w * w
  {
    assert (w - x) * (w + x) >= 0.0;
    assert (w - x) * (w + x) == w * w - x * x;
  }

  lemma PieceWithin(u: real, m: real, w: real, h: real)
    requires -w <= u - m <= w && h >= 0.0 && 7.5625 * (w * w) + h == 1.0
    ensures 0.0 <= 7.5625 * (u - m) * (u - m) + h <= 1.0
  {
    SquareWithin(u - m, w);
    assert 7.5625 * (u - m) * (u - m) == 7.5625 * ((u - m) * (u - m));
  }

  lemma Scaled(c: real, x: real)
    requires c >= 0.0 && 0.0 <= x <= 1.0
    ensures 0.0 <= c * x <= c
  {
  }

  lemma PiecesWithin(u: real)
    ensures 0.0 <= u <= 1.0 / 2.75 ==> 0.0 <= BouncePiece(0, u) <= 1.0
    ensures 1.0 / 2.75 <= u <= 2.0 / 2.75 ==> 0.0 <= BouncePiece(1, u) <= 1.0
    ensures 2.0 / 2.75 <= u <= 2.5 / 2.75 ==> 0.0 <= BouncePiece(2, u) <= 1.0
    ensures 2.5 / 2.75 <= u <= 1.0 ==> 0.0 <= BouncePiece(3, u) <= 1.0
  {
    if 0.0 <= u <= 1.0 / 2.75 { PieceWithin(u, 0.0, 1.0 / 2.75, 0.0); }
    if 1.0 / 2.75 <= u <= 2.0 / 2.75 { PieceWithin(u, 1.5 / 2.75, 0.5 / 2.75, 0.75); }
    if 2.0 / 2.75 <= u <= 2.5 / 2.75 { PieceWithin(u, 2.25 / 2.75, 0.25 / 2.75, 0.9375); }
    if 2.5 / 2.75 <= u <= 1.0 { PieceWithin(u, 2.625 / 2.75, 0.125 / 2.75, 0.984375); }
  }

  lemma OutBounceAtWithin(u: real, b: real, c: real)
    requires c >= 0.0 && 0.0 <= u <= 1.0
    ensures b <= OutBounceAt(u, b, c) <= b + c
  {
    PiecesWithin(u);
    var k := if u < 1.0 / 2.75 then 0 else if u < 2.0 / 2.75 then 1 else if u < 2.5 / 2.75 then 2 else 3;
    Scaled(c, BouncePiece(k, u));
  }

  lemma Fraction(t: real, d: real)
    requires d > 0.0 && 0.0 <= t <= d
    ensures 0.0 <= t / d <= 1.0
  {
    var u := Quotient(t, d);
    FactorSign(u, d);
    assert (1.0 - u) * d == d - t;
    FactorSign(1.0 - u, d);
  }

  lemma OutBounceWithin(t: real, b: real, c: real, d: real)
    requires d > 0.0 && c >= 0.0 && 0.0 <= t <= d
    ensures b <= EaseOutBounce(t, b, c, d) <= b + c
  {
    Fraction(t, d);
    OutBounceAtWithin(t / d, b, c);
  }

  /** No Bounce curve leaves the interval from b to b + c. */
  lemma BounceStaysWithin(t: real, b: real, c: real, d: real)
    requires d > 0.0 && c >= 0.0 && 0.0 <= t <= d
    ensures b <= EaseOutBounce(t, b, c, d) <= b + c
    ensures b <= EaseInBounce(t, b, c, d) <= b + c
    ensures b <= EaseInOutBounce(t, b, c, d) <= b + c
  {
    OutBounceWithin(t, b, c, d);
    OutBounceWithin(d - t, 0.0, c, d);
    if t < d / 2.0 { OutBounceWithin(d - t * 2.0, 0.0, c, d); } else { OutBounceWithin(t * 2.0 - d, 0.0, c, d); }
  }

  /** easeInOutBounce mirrors itself. */
  lemma BounceMirrors(t: real, b: real, c: real, d: real)
    requires d > 0.0
    ensures EaseInOutBounce(t, b, c, d) + EaseInOutBounce(d - t, b, c, d) == 2.0 * b + c
  {
    if t == d / 2.0 {
      UnitFractions(d);
    } else {
      assert (d - t) * 2.0 - d == d - t * 2.0 && d - (d - t) * 2.0 == t * 2.0 - d;
    }
  }
}
