/**
 * webgui/history.py: `_calculate_trend`, the direction of a metric by least squares over the positions.
 * Exact reals stand for the floating-point numbers of the program.
 */
module Trend {

  datatype Direction = Stable | Improving | Declining

  datatype Verdict = Verdict(direction: Direction, percent: real)

  function Abs(x: real): real { if x < 0.0 then -x else x }

  /** A product with a name, so that proofs can take it as a black box. */
  function Times(x: real, y: real): real { x * y }

  /** f(0) + ... + f(n - 1). */
  function Sum(n: nat, f: nat -> real): real {
    if n == 0 then 0.0 else Sum(n - 1, f) + f(n - 1)
  }

  function Index(): nat -> real { (i: nat) => i as real }

  function Point(ys: seq<real>, i: nat): real { if i < |ys| then ys[i] else 0.0 }

  function XMean(n: nat): real
    requires n > 0
  {
    Sum(n, Index()) / n as real
  }

  function YMean(ys: seq<real>): real
    requires ys != []
  {
    Sum(|ys|, (i: nat) => Point(ys, i)) / |ys| as real
  }

  /** The terms (x_i - xm)(y_i - c) of the numerator, for any centre c. */
  function MomentTerm(ys: seq<real>, xm: real, c: real): nat -> real {
    (i: nat) => Times(i as real - xm, Point(ys, i) - c)
  }

  function Moment(ys: seq<real>, c: real): real
    requires ys != []
  {
    Sum(|ys|, MomentTerm(ys, XMean(|ys|), c))
  }

  function Numerator(ys: seq<real>): real
    requires ys != []
  {
    Moment(ys, YMean(ys))
  }

  function SquareTerm(xm: real): nat -> real {
    (i: nat) => Times(i as real - xm, i as real - xm)
  }

  function Denominator(n: nat): real
    requires n > 0
  {
    Sum(n, SquareTerm(XMean(n)))
  }

  /** `_calculate_trend` on the values of the data points. */
  function CalculateTrend(ys: seq<real>): Verdict {
    if |ys| < 2 then Verdict(Stable, 0.0)
    else if Denominator(|ys|) == 0.0 then Verdict(Stable, 0.0)
    else
      var slope := Numerator(ys) / Denominator(|ys|);
      if Abs(slope) < 0.01 then Verdict(Stable, 0.0)
      else if slope > 0.0 then Verdict(Improving, Abs(slope) * 10.0)
      else Verdict(Declining, Abs(slope) * 10.0)
  }

  // -------------------------------------------------------------- arithmetic

  lemma DivCancel(s: real, n: real, x: real)
    requires n != 0.0 && s == Times(n, x)
    ensures s / n == x
  {
    var q := s / n;
    assert q * n == s;
    ZeroProduct(q - x, n);
  }

  lemma ZeroProduct(a: real, b: real)
    requires b != 0.0 && a * b == 0.0
    ensures a == 0.0
  {
    assert a > 0.0 && b > 0.0 ==> a * b > 0.0;
    assert a < 0.0 && b < 0.0 ==> a * b > 0.0;
  }

  lemma Distribute(a: real, x: real, y: real)
    ensures Times(a, x + y) == Times(a, x) + Times(a, y) && Times(x + y, a) == Times(x, a) + Times(y, a)
    ensures Times(1.0, a) == a && Times(0.0, a) == 0.0 && Times(a, 0.0) == 0.0
  {
  }

  lemma SameSign(x: real, y: real)
    requires (x <= 0.0 && y <= 0.0) || (x >= 0.0 && y >= 0.0)
    ensures Times(x, y) >= 0.0
  {
  }

  lemma Quotient(x: real, d: real)
    requires x >= 0.0 && d > 0.0
    ensures x / d >= 0.0
  {
  }

  lemma Fractions(a: real, x: real, b: real, y: real, d: real)
    requires d != 0.0
    ensures (Times(a, x) + Times(b, y)) / d == Times(a, x / d) + Times(b, y / d)
  {
    var p, q := x / d, y / d;
    assert x == d * p && y == d * q;
    Refactor(a, b, d, p, q);
    DivCancel(Times(a, x) + Times(b, y), d, Times(a, p) + Times(b, q));
  }

  lemma Refactor(a: real, b: real, d: real, p: real, q: real)
    ensures Times(a, d * p) + Times(b, d * q) == Times(d, Times(a, p) + Times(b, q))
  {
  }

  // ------------------------------------------------------------ sum algebra

  lemma {:induction false} SumLinear(n: nat, f: nat -> real, g: nat -> real, a: real, b: real, h: nat -> real)
    requires forall i: nat :: i < n ==> h(i) == Times(a, f(i)) + Times(b, g(i))
    ensures Sum(n, h) == Times(a, Sum(n, f)) + Times(b, Sum(n, g))
  {
    hide Times;
    Distribute(a, 0.0, 0.0);
    Distribute(b, 0.0, 0.0);
    if n > 0 {
      SumLinear(n - 1, f, g, a, b, h);
      Distribute(a, Sum(n - 1, f), f(n - 1));
      Distribute(b, Sum(n - 1, g), g(n - 1));
    }
  }

  lemma {:induction false} SumConst(n: nat, c: real)
    ensures Sum(n, (i: nat) => c) == Times(n as real, c)
  {
    if n > 0 {
      SumConst(n - 1, c);
      Distribute(c, (n - 1) as real, 1.0);
    }
  }

  lemma {:induction false} SumSame(n: nat, f: nat -> real, g: nat -> real)
    requires forall i: nat :: i < n ==> f(i) == g(i)
    ensures Sum(n, f) == Sum(n, g)
  {
    if n > 0 { SumSame(n - 1, f, g); }
  }

  lemma {:induction false} SumNonNegative(n: nat, f: nat -> real)
    requires forall i: nat :: i < n ==> f(i) >= 0.0
    ensures Sum(n, f) >= 0.0
  {
    if n > 0 { SumNonNegative(n - 1, f); }
  }

  lemma {:induction false} SumSplitFirst(n: nat, f: nat -> real)
    requires n > 0
    ensures Sum(n, f) == f(0) + Sum(n - 1, (i: nat) => f(i + 1))
  {
    if n > 1 { SumSplitFirst(n - 1, f); }
  }

  /** Summing f backwards. */
  lemma {:induction false} SumReversed(n: nat, f: nat -> real, g: nat -> real)
    requires forall i: nat :: i < n ==> g(i) == f(n - 1 - i)
    ensures Sum(n, g) == Sum(n, f)
  {
    if n > 0 {
      SumSplitFirst(n, g);
      SumReversed(n - 1, f, (i: nat) => g(i + 1));
    }
  }

  // ----------------------------------------------------------- closed forms

  lemma {:induction false} SumOfIndices(n: nat)
    ensures Sum(n, Index()) == Times(n as real, (n as real - 1.0) / 2.0)
  {
    if n > 0 {
      SumOfIndices(n - 1);
      NextIndex(n as real);
    }
  }

  lemma NextIndex(n: real)
    ensures Times(n - 1.0, (n - 2.0) / 2.0) + (n - 1.0) == Times(n, (n - 1.0) / 2.0)
  {
  }

  lemma MeanOfIndices(n: nat)
    requires n > 0
    ensures XMean(n) == (n as real - 1.0) / 2.0
  {
    hide Times, Sum;
    SumOfIndices(n);
    DivCancel(Sum(n, Index()), n as real, (n as real - 1.0) / 2.0);
  }

  function SumOfSquaresForm(n: real): real { n * (n - 1.0) * (2.0 * n - 1.0) / 6.0 }

  lemma {:induction false} SumOfSquares(n: nat)
    ensures Sum(n, SquareTerm(0.0)) == SumOfSquaresForm(n as real)
  {
    if n > 0 {
      SumOfSquares(n - 1);
      NextSquare(n as real);
    }
  }

  lemma NextSquare(n: real)
    ensures SumOfSquaresForm(n - 1.0) + Times(n - 1.0 - 0.0, n - 1.0 - 0.0) == SumOfSquaresForm(n)
  {
  }

  /** n(n^2 - 1)/12. */
  function DenominatorForm(n: real): real { n * (n * n - 1.0) / 12.0 }

  /** The denominator is n(n^2 - 1)/12, so for two or more points the zero test never fires. */
  lemma DenominatorClosedForm(n: nat)
    requires n > 0
    ensures Denominator(n) == DenominatorForm(n as real)
  {
    hide Times, Sum, XMean, SumOfSquaresForm, DenominatorForm;
    var xm := XMean(n);
    var one := (i: nat) => 1.0;
    var inner := (i: nat) => Times(-2.0 * xm, Index()(i)) + Times(Times(xm, xm), one(i));
    MeanOfIndices(n);
    SumOfSquares(n);
    SumOfIndices(n);
    SumConst(n, 1.0);
    SumLinear(n, Index(), one, -2.0 * xm, Times(xm, xm), inner);
    forall i: nat | i < n ensures SquareTerm(xm)(i) == Times(1.0, SquareTerm(0.0)(i)) + Times(1.0, inner(i)) {
      Square(i as real, xm);
    }
    SumLinear(n, SquareTerm(0.0), inner, 1.0, 1.0, SquareTerm(xm));
    ClosedForm(n as real, xm);
  }

  /** The zero test is dead: with two or more points the denominator is positive. */
  lemma DenominatorPositive(n: nat)
    requires n >= 2
    ensures Denominator(n) > 0.0
  {
    hide Denominator;
    DenominatorClosedForm(n);
    PositiveForm(n as real);
  }

  lemma Square(x: real, m: real)
    ensures Times(x - m, x - m)
         == Times(1.0, Times(x - 0.0, x - 0.0)) + Times(1.0, Times(-2.0 * m, x) + Times(Times(m, m), 1.0))
  {
  }

  lemma ClosedForm(n: real, xm: real)
    requires xm == (n - 1.0) / 2.0
    ensures Times(1.0, SumOfSquaresForm(n))
            + Times(1.0, Times(-2.0 * xm, Times(n, (n - 1.0) / 2.0)) + Times(Times(xm, xm), Times(n, 1.0)))
         == DenominatorForm(n)
  {
  }

  lemma PositiveForm(n: real)
    requires n >= 2.0
    ensures DenominatorForm(n) > 0.0
  {
    assert n * n >= 4.0;
    assert n * (n * n - 1.0) > 0.0;
  }

  // ------------------------------------------------------------------- slope

  function Slope(ys: seq<real>): real
    requires |ys| >= 2
  {
    DenominatorPositive(|ys|);
    Numerator(ys) / Denominator(|ys|)
  }

  /** With two or more points the slope alone decides: 0.01 or more either way, scaled by ten, or stable. */
  lemma TrendIsSlope(ys: seq<real>)
    requires |ys| >= 2
    ensures Slope(ys) >= 0.01 ==> CalculateTrend(ys) == Verdict(Improving, 10.0 * Slope(ys))
    ensures Slope(ys) <= -0.01 ==> CalculateTrend(ys) == Verdict(Declining, -10.0 * Slope(ys))
    ensures -0.01 < Slope(ys) < 0.01 ==> CalculateTrend(ys) == Verdict(Stable, 0.0)
  {
    DenominatorPositive(|ys|);
  }

  /** Fewer points are stable. */
  lemma TooShort(ys: seq<real>)
    requires |ys| < 2
    ensures CalculateTrend(ys) == Verdict(Stable, 0.0)
  {
  }

  lemma Centred(n: nat)
    requires n > 0
    ensures var xm := XMean(n); Sum(n, (i: nat) => i as real - xm) == 0.0
  {
    hide Sum, XMean, Times;
    var xm := XMean(n);
    var one, x := (i: nat) => 1.0, (i: nat) => i as real - xm;
    SumOfIndices(n);
    MeanOfIndices(n);
    SumConst(n, 1.0);
    forall i: nat | i < n ensures x(i) == Times(1.0, Index()(i)) + Times(-xm, one(i)) {
      One(i as real, -xm);
    }
    SumLinear(n, Index(), one, 1.0, -xm, x);
    Cancels(n as real, xm);
  }

  lemma One(i: real, m: real)
    ensures i + m == Times(1.0, i) + Times(m, 1.0)
  {
  }

  lemma Cancels(n: real, xm: real)
    requires xm == (n - 1.0) / 2.0
    ensures Times(1.0, Times(n, (n - 1.0) / 2.0)) + Times(-xm, Times(n, 1.0)) == 0.0
  {
  }

  /** The centre of the values does not matter: the positions are centred already. */
  lemma MomentIgnoresCentre(ys: seq<real>, c: real, d: real)
    requires ys != []
    ensures Moment(ys, c) == Moment(ys, d)
  {
    hide Sum, XMean, Times;
    var n, xm := |ys|, XMean(|ys|);
    var x := (i: nat) => i as real - xm;
    Centred(n);
    forall i: nat | i < n
      ensures MomentTerm(ys, xm, c)(i) == Times(1.0, MomentTerm(ys, xm, d)(i)) + Times(d - c, x(i))
    {
      Recentre(i as real - xm, ys[i], c, d);
    }
    SumLinear(n, MomentTerm(ys, xm, d), x, 1.0, d - c, MomentTerm(ys, xm, c));
    Distribute(Moment(ys, d), 0.0, 0.0);
    Distribute(d - c, 0.0, 0.0);
  }

  lemma Recentre(x: real, y: real, c: real, d: real)
    ensures Times(x, y - c) == Times(1.0, Times(x, y - d)) + Times(d - c, x)
  {
  }

  /** Slope is linear in the values and blind to constants. */
  lemma SlopeLinear(ys: seq<real>, ws: seq<real>, zs: seq<real>, a: real, b: real, c: real)
    requires |ys| == |ws| == |zs| >= 2
    requires forall i :: 0 <= i < |zs| ==> zs[i] == Times(a, ys[i]) + Times(b, ws[i]) + c
    ensures Slope(zs) == Times(a, Slope(ys)) + Times(b, Slope(ws))
  {
    hide Sum, XMean, Times;
    var n, xm := |zs|, XMean(|zs|);
    MomentIgnoresCentre(ys, YMean(ys), 0.0);
    MomentIgnoresCentre(ws, YMean(ws), 0.0);
    MomentIgnoresCentre(zs, YMean(zs), c);
    forall i: nat | i < n
      ensures MomentTerm(zs, xm, c)(i) == Times(a, MomentTerm(ys, xm, 0.0)(i)) + Times(b, MomentTerm(ws, xm, 0.0)(i))
    {
      Combine(i as real - xm, a, ys[i], b, ws[i]);
    }
    SumLinear(n, MomentTerm(ys, xm, 0.0), MomentTerm(ws, xm, 0.0), a, b, MomentTerm(zs, xm, c));
    DenominatorPositive(n);
    Fractions(a, Numerator(ys), b, Numerator(ws), Denominator(n));
  }

  lemma Combine(x: real, a: real, y: real, b: real, w: real)
    ensures Times(x, Times(a, y) + Times(b, w)) == Times(a, Times(x, y - 0.0)) + Times(b, Times(x, w - 0.0))
  {
  }

  function Positions(n: nat): seq<real> { seq(n, i => i as real) }

  lemma PositionsSlope(n: nat)
    requires n >= 2
    ensures Slope(Positions(n)) == 1.0
  {
    hide Sum, XMean, Times;
    var ys, xm := Positions(n), XMean(n);
    MomentIgnoresCentre(ys, YMean(ys), xm);
    SumSame(n, MomentTerm(ys, xm, xm), SquareTerm(xm));
    DenominatorPositive(n);
    Unit(Denominator(n));
    DivCancel(Numerator(ys), Denominator(n), 1.0);
  }

  lemma Unit(d: real)
    ensures Times(d, 1.0) == d && Times(-1.0, d) == -d
  {
  }

  // ----------------------------------------------------------- least squares

  /** How far point i lies off the line a + b*i. */
  function Off(ys: seq<real>, a: real, b: real): nat -> real {
    (i: nat) => Point(ys, i) - (a + Times(b, i as real))
  }

  function Squared(f: nat -> real): nat -> real { (i: nat) => Times(f(i), f(i)) }

  /** The sum of the squared distances of the points from a line. */
  function Misfit(ys: seq<real>, a: real, b: real): real { Sum(|ys|, Squared(Off(ys, a, b))) }

  /** Where the fitted line crosses position 0. */
  function Intercept(ys: seq<real>): real
    requires |ys| >= 2
  {
    YMean(ys) - Times(Slope(ys), XMean(|ys|))
  }

  lemma ValuesCentred(ys: seq<real>)
    requires ys != []
    ensures var c := YMean(ys); Sum(|ys|, (i: nat) => Point(ys, i) - c) == 0.0
  {
    hide Sum, Times;
    var n, c := |ys|, YMean(ys);
    var y, one, off := (i: nat) => Point(ys, i), (i: nat) => 1.0, (i: nat) => Point(ys, i) - c;
    SumConst(n, 1.0);
    forall i: nat | i < n ensures off(i) == Times(1.0, y(i)) + Times(-c, one(i)) { One(y(i), -c); }
    SumLinear(n, y, one, 1.0, -c, off);
    MeanTimes(Sum(n, y), n as real, c);
  }

  lemma MeanTimes(s: real, n: real, c: real)
    requires n != 0.0 && c == s / n
    ensures Times(1.0, s) + Times(-c, Times(n, 1.0)) == 0.0
  {
    assert c * n == s;
  }

  /** The distances from the fitted line sum to nothing, */
  lemma OffsBalance(ys: seq<real>)
    requires |ys| >= 2
    ensures Sum(|ys|, Off(ys, Intercept(ys), Slope(ys))) == 0.0
  {
    hide Sum, Times, XMean, YMean;
    var n, xm, c, s := |ys|, XMean(|ys|), YMean(ys), Slope(ys);
    var off := Off(ys, Intercept(ys), s);
    var y, x := (i: nat) => Point(ys, i) - c, (i: nat) => i as real - xm;
    ValuesCentred(ys);
    Centred(n);
    forall i: nat | i < n ensures off(i) == Times(1.0, y(i)) + Times(-s, x(i)) {
      OffSplit(Point(ys, i), c, s, xm, i as real);
    }
    SumLinear(n, y, x, 1.0, -s, off);
    Distribute(-s, 0.0, 0.0);
    Distribute(0.0, 0.0, 0.0);
  }

  lemma OffSplit(y: real, c: real, s: real, xm: real, i: real)
    ensures y - (c - Times(s, xm) + Times(s, i)) == Times(1.0, y - c) + Times(-s, i - xm)
  {
  }

  /** and so do they weighted by the centred positions. */
  lemma WeightedOffsBalance(ys: seq<real>)
    requires |ys| >= 2
    ensures var off, xm := Off(ys, Intercept(ys), Slope(ys)), XMean(|ys|);
            Sum(|ys|, (i: nat) => Times(off(i), i as real - xm)) == 0.0
  {
    hide Sum, Times, XMean, YMean;
    var n, xm, c, s := |ys|, XMean(|ys|), YMean(ys), Slope(ys);
    var off := Off(ys, Intercept(ys), s);
    var weighted := (i: nat) => Times(off(i), i as real - xm);
    forall i: nat | i < n
      ensures weighted(i) == Times(1.0, MomentTerm(ys, xm, c)(i)) + Times(-s, SquareTerm(xm)(i))
    {
      OffWeighted(Point(ys, i), c, s, xm, i as real);
    }
    SumLinear(n, MomentTerm(ys, xm, c), SquareTerm(xm), 1.0, -s, weighted);
    DenominatorPositive(n);
    SlopeTimes(Numerator(ys), Denominator(n), s);
  }

  lemma OffWeighted(y: real, c: real, s: real, xm: real, i: real)
    ensures Times(y - (c - Times(s, xm) + Times(s, i)), i - xm)
         == Times(1.0, Times(i - xm, y - c)) + Times(-s, Times(i - xm, i - xm))
  {
    OffSplit(y, c, s, xm, i);
    var x := i - xm;
    assert (1.0 * (y - c) + (-s) * x) * x == 1.0 * (x * (y - c)) + (-s) * (x * x);
  }

  lemma SlopeTimes(m: real, d: real, s: real)
    requires d != 0.0 && s == m / d
    ensures Times(1.0, m) + Times(-s, d) == 0.0
  {
    assert s * d == m;
  }

  /** How far another line lies off the fitted one. */
  function Apart(ys: seq<real>, a: real, b: real): nat -> real
    requires |ys| >= 2
  {
    (i: nat) => (a - Intercept(ys)) + Times(b - Slope(ys), i as real)
  }

  /** The distances from the fitted line have no share in any other line. */
  lemma Orthogonal(ys: seq<real>, a: real, b: real)
    requires |ys| >= 2
    ensures var off, apart := Off(ys, Intercept(ys), Slope(ys)), Apart(ys, a, b);
            Sum(|ys|, (i: nat) => Times(off(i), apart(i))) == 0.0
  {
    hide Sum, Times, XMean, YMean, Slope, Intercept;
    var n, xm := |ys|, XMean(|ys|);
    var off, apart := Off(ys, Intercept(ys), Slope(ys)), Apart(ys, a, b);
    var both, weighted := (i: nat) => Times(off(i), apart(i)), (i: nat) => Times(off(i), i as real - xm);
    var k, m := a - Intercept(ys) + Times(b - Slope(ys), xm), b - Slope(ys);
    OffsBalance(ys);
    WeightedOffsBalance(ys);
    forall i: nat | i < n ensures both(i) == Times(k, off(i)) + Times(m, weighted(i)) {
      Shift(off(i), a - Intercept(ys), m, xm, i as real);
    }
    SumLinear(n, off, weighted, k, m, both);
    Distribute(k, 0.0, 0.0);
    Distribute(m, 0.0, 0.0);
  }

  lemma Shift(r: real, k: real, m: real, xm: real, i: real)
    ensures Times(r, k + Times(m, i)) == Times(k + Times(m, xm), r) + Times(m, Times(r, i - xm))
  {
  }

  /** Pythagoras: what another line misses by is what the fitted one does and the squared distance of the two. */
  lemma MisfitSplit(ys: seq<real>, a: real, b: real)
    requires |ys| >= 2
    ensures Misfit(ys, a, b) == Misfit(ys, Intercept(ys), Slope(ys)) + Sum(|ys|, Squared(Apart(ys, a, b)))
  {
    hide Sum, Times, Slope, Intercept;
    var n := |ys|;
    var off, apart := Off(ys, Intercept(ys), Slope(ys)), Apart(ys, a, b);
    var both := (i: nat) => Times(off(i), apart(i));
    var part := (i: nat) => Times(1.0, Squared(off)(i)) + Times(-2.0, both(i));
    Orthogonal(ys, a, b);
    SumLinear(n, Squared(off), both, 1.0, -2.0, part);
    forall i: nat | i < n
      ensures Squared(Off(ys, a, b))(i) == Times(1.0, part(i)) + Times(1.0, Squared(apart)(i))
    {
      SquareSplit(Point(ys, i), Intercept(ys), Slope(ys), a, b, i as real);
    }
    SumLinear(n, part, Squared(apart), 1.0, 1.0, Squared(Off(ys, a, b)));
    Distribute(-2.0, 0.0, 0.0);
    Distribute(Sum(n, Squared(off)), 0.0, 0.0);
    Distribute(Sum(n, part), 0.0, 0.0);
    Distribute(Sum(n, Squared(apart)), 0.0, 0.0);
  }

  lemma SquareSplit(y: real, c: real, s: real, a: real, b: real, i: real)
    ensures var e, r, d := y - (a + Times(b, i)), y - (c + Times(s, i)), (a - c) + Times(b - s, i);
            Times(e, e) == Times(1.0, Times(1.0, Times(r, r)) + Times(-2.0, Times(r, d))) + Times(1.0, Times(d, d))
  {
    var e, r, d := y - (a + Times(b, i)), y - (c + Times(s, i)), (a - c) + Times(b - s, i);
    assert Times(b - s, i) == Times(b, i) - Times(s, i);
    assert e == r - d;
    assert (r - d) * (r - d) == r * r - 2.0 * (r * d) + d * d;
  }

  lemma SquaresNotNegative(x: real)
    ensures Times(x, x) >= 0.0 && (Times(x, x) == 0.0 ==> x == 0.0)
  {
    if x != 0.0 && x * x == 0.0 { ZeroProduct(x, x); }
  }

  /** A sum of squares is nothing only if each of them is. */
  lemma {:induction false} NoSquares(n: nat, f: nat -> real, k: nat)
    requires k < n
    ensures Sum(n, Squared(f)) >= 0.0 && (Sum(n, Squared(f)) == 0.0 ==> f(k) == 0.0)
  {
    forall i: nat ensures Squared(f)(i) >= 0.0 { SquaresNotNegative(f(i)); }
    SquaresNotNegative(f(n - 1));
    SumNonNegative(n - 1, Squared(f));
    if k < n - 1 { NoSquares(n - 1, f, k); }
  }

  /** Least squares: no line misses the points by less than the one with the computed slope, and no other by as little. */
  lemma LeastSquares(ys: seq<real>, a: real, b: real)
    requires |ys| >= 2
    ensures Misfit(ys, a, b) >= Misfit(ys, Intercept(ys), Slope(ys))
    ensures Misfit(ys, a, b) == Misfit(ys, Intercept(ys), Slope(ys)) ==> b == Slope(ys) && a == Intercept(ys)
  {
    hide Sum, Slope, Intercept;
    MisfitSplit(ys, a, b);
    NoSquares(|ys|, Apart(ys, a, b), 0);
    NoSquares(|ys|, Apart(ys, a, b), 1);
  }

  // ---------------------------------------------------------------- theorems

  /** On the line y = a + b*i the slope is exactly b, and b decides the verdict. */
  lemma LineHasItsSlope(ys: seq<real>, a: real, b: real)
    requires |ys| >= 2 && forall i :: 0 <= i < |ys| ==> ys[i] == a + b * i as real
    ensures Slope(ys) == b
    ensures b >= 0.01 ==> CalculateTrend(ys) == Verdict(Improving, 10.0 * b)
    ensures b <= -0.01 ==> CalculateTrend(ys) == Verdict(Declining, -10.0 * b)
    ensures -0.01 < b < 0.01 ==> CalculateTrend(ys) == Verdict(Stable, 0.0)
  {
    var xs := Positions(|ys|);
    SlopeLinear(xs, xs, ys, b, 0.0, a);
    PositionsSlope(|ys|);
    TrendIsSlope(ys);
  }

  /** Adding a constant to every value changes nothing. */
  lemma ConstantIgnored(ys: seq<real>, zs: seq<real>, c: real)
    requires |ys| == |zs| && forall i :: 0 <= i < |ys| ==> zs[i] == ys[i] + c
    ensures CalculateTrend(zs) == CalculateTrend(ys)
  {
    if |ys| >= 2 {
      SlopeLinear(ys, ys, zs, 1.0, 0.0, c);
      TrendIsSlope(ys);
      TrendIsSlope(zs);
    }
  }

  function Opposite(v: Verdict): Verdict {
    v.(direction := match v.direction case Stable => Stable case Improving => Declining case Declining => Improving)
  }

  /** Negating the values swaps the verdict and keeps the percentage. */
  lemma NegationSwaps(ys: seq<real>, zs: seq<real>)
    requires |ys| == |zs| && forall i :: 0 <= i < |ys| ==> zs[i] == -ys[i]
    ensures CalculateTrend(zs) == Opposite(CalculateTrend(ys))
    ensures |ys| >= 2 ==> Slope(zs) == -Slope(ys)
  {
    if |ys| >= 2 {
      SlopeLinear(ys, ys, zs, -1.0, 0.0, 0.0);
      TrendIsSlope(ys);
      TrendIsSlope(zs);
    }
  }

  /** Reading the series backwards swaps the verdict and keeps the percentage. */
  lemma ReversalSwaps(ys: seq<real>, zs: seq<real>)
    requires |ys| == |zs| && forall i :: 0 <= i < |ys| ==> zs[i] == ys[|ys| - 1 - i]
    ensures CalculateTrend(zs) == Opposite(CalculateTrend(ys))
  {
    if |ys| >= 2 {
      hide Sum, XMean, CalculateTrend;
      var n, xm := |ys|, XMean(|ys|);
      var minus := seq(n, i requires 0 <= i < n => -ys[i]);
      MeanOfIndices(n);
      MomentIgnoresCentre(zs, YMean(zs), 0.0);
      MomentIgnoresCentre(minus, YMean(minus), 0.0);
      forall i: nat | i < n ensures MomentTerm(zs, xm, 0.0)(i) == MomentTerm(minus, xm, 0.0)(n - 1 - i) {
        assert (n - 1 - i) as real - xm == -(i as real - xm);
      }
      SumReversed(n, MomentTerm(minus, xm, 0.0), MomentTerm(zs, xm, 0.0));
      assert Slope(zs) == Slope(minus);
      TrendIsSlope(zs);
      TrendIsSlope(minus);
      NegationSwaps(ys, minus);
    }
  }

  /** Chebyshev's sum argument: a series that never falls has a non-negative moment. */
  lemma RisingMoment(ys: seq<real>)
    requires ys != [] && forall i, j :: 0 <= i < j < |ys| ==> ys[i] <= ys[j]
    ensures Numerator(ys) >= 0.0
  {
    hide Sum, XMean, Times;
    var n, xm := |ys|, XMean(|ys|);
    var middle := (n - 1) / 2;
    MeanOfIndices(n);
    MomentIgnoresCentre(ys, YMean(ys), ys[middle]);
    forall i: nat | i < n ensures MomentTerm(ys, xm, ys[middle])(i) >= 0.0 {
      var x, y := i as real - xm, ys[i] - ys[middle];
      assert if i <= middle then x <= 0.0 && y <= 0.0 else x >= 0.0 && y >= 0.0;
      SameSign(x, y);
    }
    SumNonNegative(n, MomentTerm(ys, xm, ys[middle]));
  }

  /** A series that never falls is never declining, and one that never rises is never improving. */
  lemma MonotoneVerdicts(ys: seq<real>)
    ensures (forall i, j :: 0 <= i < j < |ys| ==> ys[i] <= ys[j]) ==> !CalculateTrend(ys).direction.Declining?
    ensures (forall i, j :: 0 <= i < j < |ys| ==> ys[i] >= ys[j]) ==> !CalculateTrend(ys).direction.Improving?
  {
    if |ys| >= 2 {
      TrendIsSlope(ys);
      DenominatorPositive(|ys|);
      if forall i, j :: 0 <= i < j < |ys| ==> ys[i] <= ys[j] {
        RisingMoment(ys);
        Quotient(Numerator(ys), Denominator(|ys|));
      }
      if forall i, j :: 0 <= i < j < |ys| ==> ys[i] >= ys[j] {
        var minus := seq(|ys|, i requires 0 <= i < |ys| => -ys[i]);
        RisingMoment(minus);
        Quotient(Numerator(minus), Denominator(|ys|));
        NegationSwaps(ys, minus);
      }
    }
  }
}
