/** Exactly which parameter domains are accepted, and what the conversions give for them,
    in formulas over the domain's own fields. */
module ParamAcceptance {
  import opened ParamDomain

  // ------------------------------------------------------------ which domains are accepted

  /** The integers from m in n steps of s, all of them exact in the scalar type. */
  predicate Declares(d: Domain, m: int, s: int) {
    && d.minimum == m as real && d.step == s as real && s > 0
    && d.maximum == (m + d.stepCount * s) as real && d.stepCount > 0
    && (d.scalar.I32? ==> -2147483648 <= m && m + d.stepCount * s <= 2147483647 && s <= 2147483647)
    && (d.scalar.I64? ==>
          && -9007199254740991 <= m && m + d.stepCount * s <= 9007199254740991
          && d.stepCount * s <= 9007199254740991)
  }

  ghost predicate DeclaresIntegers(d: Domain) {
    exists m, s :: Declares(d, m, s)
  }

  /** A linear domain, curved or not, continuous or in positive steps; a logarithmic one of
      positive values, continuous and without a curve; integers only in steps that reach
      the maximum. */
  ghost predicate Declared(d: Domain) {
    && d.minimum < d.maximum
    && match d.scale
       case NoScale => false
       case Linear =>
         (match d.scalar
          case I32 => DeclaresIntegers(d)
          case I64 => DeclaresIntegers(d)
          case _ => d.stepCount > 0 ==> d.step > 0.0)
       case Logarithmic =>
         !d.hasCurve && d.minimum > 0.0 && d.stepCount == 0 && (d.scalar.F32? || d.scalar.F64?)
  }

  lemma WholeSteps(width: int, step: int, n: int)
    requires step > 0
    ensures width % step == 0 && width / step == n <==> width == n * step
  {
    if width == n * step {
      QuotientOfProduct(n, step);
    }
  }

  lemma QuotientOfProduct(n: int, step: int)
    requires step > 0
    ensures n * step % step == 0 && n * step / step == n
  {
    assert n * step == n * step / step * step + n * step % step;
    var q := n * step / step;
    assert 0 <= n * step - q * step < step;
    assert 0 <= (n - q) * step < step;
    if n - q >= 1 {
      IntegerProducts(n - q - 1, step);
      assert false;
    } else if n - q <= -1 {
      IntegerProducts(q - n - 1, step);
      assert false;
    }
  }

  lemma IntegerProducts(k: int, step: int)
    requires k >= 0 && step > 0
    ensures k * step >= 0 && (k + 1) * step == k * step + step
  {
  }

  lemma IntegerMagnitude(x: real, bound: int)
    requires x == x.Floor as real
    ensures x <= bound as real <==> x.Floor <= bound
    ensures -(bound as real) <= x <==> -bound <= x.Floor
  {
  }

  /** Integer steps accepted one field at a time are integers declared from the minimum. */
  lemma IntegersExactly(d: Domain)
    requires IsIntegerScalar(d.scalar) && d.scale == Linear && d.minimum < d.maximum
    ensures IsValid(d) <==> DeclaresIntegers(d)
  {
    if IsValid(d) {
      IntegersDeclared(d);
    }
    if DeclaresIntegers(d) {
      var m, s :| Declares(d, m, s);
      DeclaredIntegersValid(d, m, s);
    }
  }

  lemma IntegersDeclared(d: Domain)
    requires IsIntegerScalar(d.scalar) && IsValid(d)
    ensures Declares(d, d.minimum.Floor, d.step.Floor)
  {
    var m, s, w := d.minimum.Floor, d.step.Floor, d.maximum.Floor - d.minimum.Floor;
    assert s > 0;
    WholeSteps(w, s, d.stepCount);
    assert m + d.stepCount * s == d.maximum.Floor;
  }

  lemma DeclaredIntegersValid(d: Domain, m: int, s: int)
    requires IsIntegerScalar(d.scalar) && d.scale == Linear && d.minimum < d.maximum && Declares(d, m, s)
    ensures IsValid(d)
  {
    var top := m + d.stepCount * s;
    assert d.minimum.Floor == m && d.step.Floor == s && d.maximum.Floor == top;
    WholeSteps(top - m, s, d.stepCount);
    StepFits(d.stepCount, s);
  }

  lemma StepFits(n: nat, s: int)
    requires n > 0 && s > 0
    ensures s <= n * s
  {
    IntegerProducts(n - 1, s);
  }

  /** A value is constrained to a number exactly in a declared domain. */
  lemma ConstrainsExactly(d: Domain, plain: Number)
    ensures Constrain(d, plain).Finite? <==> Declared(d)
    ensures Constrain(d, plain).Finite? || Constrain(d, plain) == NotANumber
  {
    hide DeclaresIntegers;
    if IsIntegerScalar(d.scalar) && d.scale == Linear && d.minimum < d.maximum {
      IntegersExactly(d);
    }
  }

  lemma AcceptedIsDeclared(d: Domain)
    ensures IsValid(d) <==> Declared(d)
  {
    hide IsValid, Declared;
    ConstrainsExactly(d, NotANumber);
    ConstrainsIfValid(d);
  }

  lemma ConstrainsIfValid(d: Domain)
    ensures Constrain(d, NotANumber).Finite? <==> IsValid(d)
  {
  }

  // ------------------------------------------------------------ what constraining gives

  /** In a continuous domain, linear with any curve or logarithmic, a value inside the
      bounds is kept, one outside moves to the nearer bound, and what is not a number
      becomes the minimum. */
  lemma ContinuousConstrains(d: Domain, x: real)
    requires d.minimum < d.maximum && d.stepCount == 0 && (d.scalar.F32? || d.scalar.F64?)
    requires d.scale == Linear || (d.scale == Logarithmic && d.minimum > 0.0 && !d.hasCurve)
    ensures Constrain(d, Finite(x)) ==
      Finite(if x < d.minimum then d.minimum else if x > d.maximum then d.maximum else x)
    ensures Constrain(d, NotANumber) == Constrain(d, NegativeInfinity) == Finite(d.minimum)
    ensures Constrain(d, PositiveInfinity) == Finite(d.maximum)
  {
    hide IsValid;
    AcceptedIsDeclared(d);
  }

  /** Stepped domains keep their declared points, and take every other value inside the
      bounds to a point at most half a step away. */
  lemma SteppedKeepsPoints(d: Domain, k: nat)
    requires Declared(d) && d.stepCount > 0 && d.minimum + k as real * d.step <= d.maximum
    ensures Constrain(d, Finite(d.minimum + k as real * d.step)) == Finite(d.minimum + k as real * d.step)
  {
    hide IsValid, Snap, Declared;
    AcceptedIsDeclared(d);
    StepPositive(d);
    SnapGridPoint(d, k);
    ProductNonnegative(k as real, d.step);
  }

  lemma StepPositive(d: Domain)
    requires IsValid(d) && d.stepCount > 0
    ensures d.step > 0.0
  {
  }

  /** An integer domain constrains to the integers it declares, and keeps each of them. */
  lemma IntegersConstrain(d: Domain, m: int, s: int, k: nat, plain: Number)
    requires (d.scalar.I32? || d.scalar.I64?) && d.scale == Linear && d.minimum < d.maximum
    requires Declares(d, m, s) && k <= d.stepCount
    ensures Constrain(d, Finite((m + k * s) as real)) == Finite((m + k * s) as real)
    ensures exists j :: 0 <= j <= d.stepCount && Constrain(d, plain) == Finite((m + j * s) as real)
  {
    hide Constrain, GridPoint, IsValid;
    IntegerPoint(d, m, s, k);
    DeclaredIntegersValid(d, m, s);
    AcceptedIsDeclared(d);
    assert m + k * s <= m + d.stepCount * s by { PointsInOrder(k, d.stepCount, s); }
    SteppedKeepsPoints(d, k);
    IntegerDomainsStayIntegral(d, plain);
    var j :| 0 <= j <= d.stepCount && GridPoint(d, j) == Constrain(d, plain).value;
    IntegerPoint(d, m, s, j);
  }

  lemma PointsInOrder(k: nat, n: nat, s: int)
    requires k <= n && s > 0
    ensures k * s <= n * s
  {
    assert (n - k) * s == n * s - k * s;
    if n > k { IntegerProducts(n - k, s); }
  }

  lemma IntegerPoint(d: Domain, m: int, s: int, k: nat)
    requires d.minimum == m as real && d.step == s as real
    ensures GridPoint(d, k) == (m + k * s) as real == d.minimum + k as real * d.step
  {
    RealProduct(k, s);
  }

  // ------------------------------------------------------------ what the conversions give

  /** The laws that tie the four elementary functions together. */
  ghost predicate Exponential(e: Elementary) {
    && e.Laws()
    && (forall x, y :: SumToProduct(e, x, y))
    && (forall x :: e.expm1(x) == e.exp(x) - 1.0)
  }

  predicate SumToProduct(e: Elementary, x: real, y: real) {
    e.exp(x + y) == e.exp(x) * e.exp(y)
  }

  lemma ExpOfSum(e: Elementary, x: real, y: real)
    requires Exponential(e)
    ensures e.exp(x + y) == e.exp(x) * e.exp(y)
  {
    hide Elementary.Laws;
    assert SumToProduct(e, x, y);
  }

  lemma Expm1Is(e: Elementary, x: real)
    requires Exponential(e)
    ensures e.expm1(x) == e.exp(x) - 1.0
  {
    hide Elementary.Laws;
  }

  lemma ExpOfZero(e: Elementary)
    requires Exponential(e)
    ensures e.exp(0.0) == 1.0
  {
    hide Elementary.Laws, Exponential;
    HasLaws(e);
    Expm1Is(e, 0.0);
    Expm1AtZero(e);
  }

  lemma Expm1AtZero(e: Elementary)
    requires e.Laws()
    ensures e.expm1(0.0) == 0.0
  {
  }

  lemma AboveMinusOne(e: Elementary, x: real)
    requires e.Laws()
    ensures e.expm1(x) > -1.0
  {
  }

  lemma ExpStrictly(e: Elementary, x: real, y: real)
    requires e.Laws() && x < y
    ensures e.exp(x) < e.exp(y)
  {
  }

  lemma LogOfExp(e: Elementary, x: real)
    requires Exponential(e)
    ensures e.exp(x) > 0.0 && e.log(e.exp(x)) == x
  {
    hide Elementary.Laws, Exponential;
    HasLaws(e);
    Expm1Is(e, x);
    AboveMinusOne(e, x);
    var l := e.log(e.exp(x));
    ExpOfLog(e, e.exp(x));
    if l < x {
      ExpStrictly(e, l, x);
    } else if x < l {
      ExpStrictly(e, x, l);
    }
  }

  /** A continuous linear domain without a curve is traversed evenly. */
  lemma LinearConverts(e: Elementary, d: Domain, u: real)
    requires e.Laws() && 0.0 <= u <= 1.0
    requires d.minimum < d.maximum && d.stepCount == 0 && (d.scalar.F32? || d.scalar.F64?)
    requires d.scale == Linear && (!d.hasCurve || -0.001 < d.curve < 0.001)
    ensures NormalizedToPlain(e, d, Finite(u)) == Finite(d.minimum + u * (d.maximum - d.minimum))
  {
    hide IsValid, Elementary.Laws;
    AcceptedIsDeclared(d);
    FractionInside(d, u);
    if 0.0 < u < 1.0 {
      ContinuousConstrains(d, d.minimum + u * (d.maximum - d.minimum));
    }
  }

  lemma FractionInside(d: Domain, u: real)
    requires d.minimum < d.maximum && 0.0 <= u <= 1.0
    ensures d.minimum <= d.minimum + u * (d.maximum - d.minimum) <= d.maximum
  {
    ProductNonnegative(u, d.maximum - d.minimum);
    ProductNonnegative(1.0 - u, d.maximum - d.minimum);
    assert (1.0 - u) * (d.maximum - d.minimum) == d.maximum - d.minimum - u * (d.maximum - d.minimum);
  }

  /** The curve is one formula for both directions: u goes to expm1(c * u) / expm1(c). The
      code reflects positive curves, which is the same. */
  lemma CurveIsOneFormula(e: Elementary, c: real, u: real)
    requires Exponential(e) && Abs(c) >= 0.001
    ensures e.expm1(c) != 0.0 && e.expm1(-c) != 0.0
    ensures CurveToUnit(e, c, u) * e.expm1(c) == e.expm1(c * u)
  {
    hide Elementary.Laws, Exponential;
    assert e.Laws() by { HasLaws(e); }
    CurveDenominators(e, c);
    if c > 0.0 {
      Reflected(e, c, u);
    } else {
      Cancels(e.expm1(c * u), e.expm1(c));
    }
  }

  lemma HasLaws(e: Elementary)
    requires Exponential(e)
    ensures e.Laws()
  {
  }

  lemma Reflected(e: Elementary, c: real, u: real)
    requires Exponential(e) && c >= 0.001 && e.expm1(-c) != 0.0
    ensures (1.0 - Warp(e, -c, 1.0 - u)) * e.expm1(c) == e.expm1(c * u)
  {
    hide Elementary.Laws, Exponential;
    var p, q, r := e.exp(c), e.exp(-c), e.exp(c * u);
    ExpOfZero(e);
    ExpOfSum(e, c, -c);
    ExpOfSum(e, -c, c * u);
    Expm1Is(e, c);
    Expm1Is(e, -c);
    Expm1Is(e, c * u);
    Expm1Is(e, -c * (1.0 - u));
    assert c + -c == 0.0 && -c + c * u == -c * (1.0 - u);
    var w := Warp(e, -c, 1.0 - u);
    Cancels(e.expm1(-c * (1.0 - u)), e.expm1(-c));
    assert w * (q - 1.0) == q * r - 1.0;
    ReflectedAlgebra(p, q, r, w);
  }

  lemma ReflectedAlgebra(p: real, q: real, r: real, w: real)
    requires p * q == 1.0 && w * (q - 1.0) == q * r - 1.0
    ensures (1.0 - w) * (p - 1.0) == r - 1.0
  {
    assert p * (w * (q - 1.0)) == w * (p * q - p) == w * (1.0 - p);
    assert p * (q * r - 1.0) == (p * q) * r - p == r - p;
  }

  /** A continuous curved domain: the fraction of the width is expm1(c * u) / expm1(c). */
  lemma CurvedConverts(e: Elementary, d: Domain, u: real)
    requires Exponential(e) && 0.0 < u < 1.0
    requires d.minimum < d.maximum && d.stepCount == 0 && (d.scalar.F32? || d.scalar.F64?)
    requires d.scale == Linear && d.hasCurve && Abs(d.curve) >= 0.001
    ensures e.Laws() && NormalizedToPlain(e, d, Finite(u)).Finite?
    ensures var plain := NormalizedToPlain(e, d, Finite(u)).value;
      (plain - d.minimum) * e.expm1(d.curve) == e.expm1(d.curve * u) * (d.maximum - d.minimum)
  {
    hide IsValid, Elementary.Laws, Exponential, CurveToUnit, Constrain, NormalizedToPlain;
    HasLaws(e);
    CurveIsOneFormula(e, d.curve, u);
    CurvedPlain(e, d, u);
    Rearranged(CurveToUnit(e, d.curve, u), d.maximum - d.minimum, e.expm1(d.curve), e.expm1(d.curve * u));
  }

  lemma CurvedPlain(e: Elementary, d: Domain, u: real)
    requires e.Laws() && 0.0 < u < 1.0 && e.expm1(d.curve) != 0.0 && e.expm1(-d.curve) != 0.0
    requires d.minimum < d.maximum && d.stepCount == 0 && (d.scalar.F32? || d.scalar.F64?)
    requires d.scale == Linear && d.hasCurve && Abs(d.curve) >= 0.001
    ensures NormalizedToPlain(e, d, Finite(u)) ==
      Finite(d.minimum + CurveToUnit(e, d.curve, u) * (d.maximum - d.minimum))
  {
    hide Elementary.Laws, CurveToUnit, Interior, NormalizedToPlain, Constrain, IsValid;
    InteriorOfCurve(e, d, u);
    CurveInside(e, d.curve, u);
    FractionInside(d, CurveToUnit(e, d.curve, u));
    InteriorIsPlain(e, d, u);
  }

  /** In a continuous domain a position whose value lies inside the bounds has that value. */
  lemma InteriorIsPlain(e: Elementary, d: Domain, u: real)
    requires e.Laws() && 0.0 < u < 1.0
    requires d.minimum < d.maximum && d.stepCount == 0 && (d.scalar.F32? || d.scalar.F64?)
    requires d.scale == Linear || (d.scale == Logarithmic && d.minimum > 0.0 && !d.hasCurve)
    requires d.minimum <= Interior(e, d, u) <= d.maximum
    ensures NormalizedToPlain(e, d, Finite(u)) == Finite(Interior(e, d, u))
  {
    hide Elementary.Laws, Interior, Constrain, IsValid;
    AcceptedIsDeclared(d);
    ContinuousConstrains(d, Interior(e, d, u));
  }

  lemma InteriorOfCurve(e: Elementary, d: Domain, u: real)
    requires e.Laws() && e.expm1(d.curve) != 0.0 && e.expm1(-d.curve) != 0.0 && d.hasCurve
    ensures Interior(e, d, u) == d.minimum + CurveToUnit(e, d.curve, u) * (d.maximum - d.minimum)
  {
    hide Elementary.Laws, CurveToUnit;
  }

  lemma Rearranged(f: real, width: real, a: real, b: real)
    requires f * a == b
    ensures f * width * a == b * width
  {
    assert f * width * a == (f * a) * width;
  }

  lemma CurveInside(e: Elementary, c: real, u: real)
    requires e.Laws() && Abs(c) >= 0.001 && 0.0 < u < 1.0
    requires e.expm1(c) != 0.0 && e.expm1(-c) != 0.0
    ensures 0.0 <= CurveToUnit(e, c, u) <= 1.0
  {
    hide Elementary.Laws, Warp, CurveToUnit;
    CurveMonotone(e, c, 0.0, u);
    CurveMonotone(e, c, u, 1.0);
    CurveEnds(e, c);
  }

  lemma CurveEnds(e: Elementary, c: real)
    requires e.Laws() && Abs(c) >= 0.001 && e.expm1(c) != 0.0 && e.expm1(-c) != 0.0
    ensures CurveToUnit(e, c, 0.0) == 0.0 && CurveToUnit(e, c, 1.0) == 1.0
  {
    hide Elementary.Laws, Warp;
    var k := if c > 0.0 then -c else c;
    WarpEnds(e, k);
  }

  lemma WarpEnds(e: Elementary, k: real)
    requires e.Laws() && e.expm1(k) != 0.0
    ensures Warp(e, k, 0.0) == 0.0 && Warp(e, k, 1.0) == 1.0
  {
    hide Over;
    assert Times(k, 0.0) == 0.0 && Times(k, 1.0) == k;
    OverTimes(1.0, e.expm1(k));
    OverTimes(0.0, e.expm1(k));
    assert Times(1.0, e.expm1(k)) == e.expm1(k) && Times(0.0, e.expm1(k)) == 0.0;
  }

  /** A logarithmic domain is traversed evenly in the logarithm. */
  lemma LogarithmicConverts(e: Elementary, d: Domain, u: real)
    requires Exponential(e) && 0.0 < u < 1.0
    requires 0.0 < d.minimum < d.maximum && d.stepCount == 0 && (d.scalar.F32? || d.scalar.F64?)
    requires d.scale == Logarithmic && !d.hasCurve
    ensures e.Laws() && NormalizedToPlain(e, d, Finite(u)).Finite?
    ensures e.log(NormalizedToPlain(e, d, Finite(u)).value) ==
      e.log(d.minimum) + u * (e.log(d.maximum) - e.log(d.minimum))
  {
    hide Elementary.Laws, Exponential, LogPoint, NormalizedToPlain, Times;
    HasLaws(e);
    LogPointInside(e, d, u);
    InteriorIsPlain(e, d, u);
    TimesIs(u, e.log(d.maximum) - e.log(d.minimum));
  }

  lemma LogPointInside(e: Elementary, d: Domain, u: real)
    requires Exponential(e) && 0.0 < u < 1.0 && 0.0 < d.minimum < d.maximum
    ensures d.minimum <= LogPoint(e, d, u) <= d.maximum
    ensures e.log(LogPoint(e, d, u)) == e.log(d.minimum) + Times(u, e.log(d.maximum) - e.log(d.minimum))
  {
    hide Elementary.Laws, Exponential, Times;
    HasLaws(e);
    LogWidth(e, d);
    var width := e.log(d.maximum) - e.log(d.minimum);
    var t := e.log(d.minimum) + Times(u, width);
    TimesBelow(u, width);
    ExpIncreases(e, e.log(d.minimum), t);
    ExpIncreases(e, t, e.log(d.maximum));
    ExpOfLog(e, d.minimum);
    ExpOfLog(e, d.maximum);
    LogOfExp(e, t);
  }

  lemma TimesBelow(u: real, width: real)
    requires 0.0 <= u <= 1.0 && width >= 0.0
    ensures 0.0 <= Times(u, width) <= width
  {
    ProductNonnegative(u, width);
    ProductNonnegative(1.0 - u, width);
    assert (1.0 - u) * width == width - u * width;
  }

  lemma TimesIs(a: real, b: real)
    ensures Times(a, b) == a * b
  {
  }

  /** The ends of the control are the ends of the domain. */
  lemma EndsConvert(e: Elementary, d: Domain)
    requires e.Laws() && Declared(d)
    ensures NormalizedToPlain(e, d, Finite(0.0)) == Finite(d.minimum)
    ensures NormalizedToPlain(e, d, Finite(1.0)) == Finite(d.maximum)
  {
    hide IsValid, Declared, Elementary.Laws;
    AcceptedIsDeclared(d);
  }
}
