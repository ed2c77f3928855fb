/** Host-control parameter domains in exact real arithmetic: clamping and snapping,
    and the conversion between plain and normalized values. */
module ParamDomain {
  datatype Scale = NoScale | Linear | Logarithmic

  datatype Scalar = F32 | F64 | I32 | I64

  /** A value handed over by a host: any real, an infinity, or not a number. */
  datatype Number = NotANumber | NegativeInfinity | PositiveInfinity | Finite(value: real)

  /** `onda_processor_param_domain`; a step count of zero means continuous. */
  datatype Domain = Domain(
    minimum: real, maximum: real, step: real, curve: real,
    stepCount: nat, scale: Scale, scalar: Scalar, hasCurve: bool)

  /** The elementary functions of the C library. */
  datatype Elementary = Elementary(exp: real -> real, log: real -> real, expm1: real -> real, log1p: real -> real) {
    /** The inverse and monotonicity laws of the exponential and the logarithm. */
    ghost predicate Laws() {
      && (forall x :: x > 0.0 ==> exp(log(x)) == x)
      && (forall x, y :: x < y ==> exp(x) < exp(y))
      && (forall x, y :: 0.0 < x < y ==> log(x) < log(y))
      && (forall x :: -1.0 < expm1(x))
      && (forall x :: log1p(expm1(x)) == x)
      && (forall x :: x > -1.0 ==> expm1(log1p(x)) == x)
      && (forall x, y :: x < y ==> expm1(x) < expm1(y))
      && (forall x, y :: -1.0 < x < y ==> log1p(x) < log1p(y))
      && expm1(0.0) == 0.0
      && log1p(0.0) == 0.0
    }
  }

  lemma Expm1Increases(e: Elementary, x: real, y: real)
    requires e.Laws() && x < y
    ensures -1.0 < e.expm1(x) < e.expm1(y)
  {
  }

  lemma Expm1Sign(e: Elementary, x: real)
    requires e.Laws()
    ensures x < 0.0 ==> -1.0 < e.expm1(x) < 0.0
    ensures x > 0.0 ==> e.expm1(x) > 0.0
  {
  }

  lemma Log1pIncreases(e: Elementary, x: real, y: real)
    requires e.Laws() && -1.0 < x < y
    ensures e.log1p(x) < e.log1p(y)
  {
  }

  lemma Log1pInverts(e: Elementary, x: real)
    requires e.Laws()
    ensures e.log1p(e.expm1(x)) == x
    ensures x > -1.0 ==> e.expm1(e.log1p(x)) == x
    ensures e.log1p(0.0) == 0.0
  {
  }

  lemma LogIncreases(e: Elementary, x: real, y: real)
    requires e.Laws() && 0.0 < x < y
    ensures e.log(x) < e.log(y)
  {
  }

  lemma ExpIncreases(e: Elementary, x: real, y: real)
    requires e.Laws() && x <= y
    ensures e.exp(x) <= e.exp(y)
  {
  }

  lemma ExpOfLog(e: Elementary, x: real)
    requires e.Laws() && x > 0.0
    ensures e.exp(e.log(x)) == x
  {
  }

  // Products and quotients by name: proofs hide these two and use the facts about
  // them that follow.

  function Times(a: real, b: real): real { a * b }

  function Over(a: real, b: real): real
    requires b != 0.0
  {
    a / b
  }

  lemma OverTimes(a: real, b: real)
    requires b != 0.0
    ensures Times(Over(a, b), b) == a && Times(b, Over(a, b)) == a
    ensures Over(Times(a, b), b) == a
  {
  }

  function Min(a: real, b: real): real { if a <= b then a else b }
  function Max(a: real, b: real): real { if a <= b then b else a }
  function Abs(a: real): real { if a < 0.0 then -a else a }

  predicate IsInteger(x: real) { x == x.Floor as real }

  predicate IntegerValueIsValid(scalar: Scalar, value: real) {
    && IsInteger(value)
    && match scalar
       case I32 => -2147483648.0 <= value <= 2147483647.0
       case I64 => Abs(value) <= 9007199254740991.0
       case _ => false
  }

  predicate IsIntegerScalar(scalar: Scalar) { scalar.I32? || scalar.I64? }

  /** `onda_processor_param_domain_is_valid`, without the representability of the
      bounds in binary floating point and the tolerance of the floating-point grid
      test: every domain the C code accepts is accepted here. */
  predicate IsValid(d: Domain) {
    && d.scale != NoScale
    && d.minimum < d.maximum
    && (IsIntegerScalar(d.scalar) ==> IntegerValueIsValid(d.scalar, d.minimum) && IntegerValueIsValid(d.scalar, d.maximum))
    && (d.scalar.I64? ==> d.maximum - d.minimum <= 9007199254740991.0)
    && (d.hasCurve ==> d.scale == Linear)
    && (d.scale == Logarithmic ==> d.minimum > 0.0 && d.stepCount == 0 && !IsIntegerScalar(d.scalar))
    && (d.stepCount == 0 ==> !IsIntegerScalar(d.scalar))
    && (d.stepCount != 0 ==>
          && d.step > 0.0
          && (IsIntegerScalar(d.scalar) ==>
                && IntegerValueIsValid(d.scalar, d.step)
                && var width, step := d.maximum.Floor - d.minimum.Floor, d.step.Floor;
                  width % step == 0 && width / step == d.stepCount))
  }

  function Clamp(d: Domain, x: real): real {
    Min(d.maximum, Max(d.minimum, x))
  }

  function ClampNumber(d: Domain, plain: Number): real {
    match plain
    case NotANumber => d.minimum
    case NegativeInfinity => d.minimum
    case PositiveInfinity => d.maximum
    case Finite(x) => Clamp(d, x)
  }

  /** The grid point nearest to a clamped value, ties upwards. */
  function Snap(d: Domain, x: real): real
    requires d.step > 0.0
  {
    GridPoint(d, StepIndex(d, x))
  }

  function StepIndex(d: Domain, x: real): int
    requires d.step > 0.0
  {
    (Over(x - d.minimum, d.step) + 0.5).Floor
  }

  function GridPoint(d: Domain, k: int): real {
    d.minimum + Times(k as real, d.step)
  }

  /** Snapping and clamping of a value inside the bounds. */
  function Settle(d: Domain, x: real): real
    requires IsValid(d)
  {
    if d.stepCount != 0 then Clamp(d, Snap(d, x)) else x
  }

  /** `onda_processor_param_constrain_plain`. */
  function Constrain(d: Domain, plain: Number): Number {
    if !IsValid(d) then NotANumber else Finite(Settle(d, ClampNumber(d, plain)))
  }

  /** The exponential warp of both curve directions, and its inverse. */
  function Warp(e: Elementary, exponent: real, u: real): real
    requires e.expm1(exponent) != 0.0
  {
    Over(e.expm1(Times(exponent, u)), e.expm1(exponent))
  }

  function Unwarp(e: Elementary, exponent: real, u: real): real
    requires exponent != 0.0
  {
    Over(e.log1p(Times(u, e.expm1(exponent))), exponent)
  }

  /** `onda_processor_lincurve_normalized_to_unit`. */
  function CurveToUnit(e: Elementary, curve: real, normalized: real): real
    requires Abs(curve) >= 0.001 ==> e.expm1(curve) != 0.0 && e.expm1(-curve) != 0.0
  {
    if Abs(curve) < 0.001 then normalized
    else if curve > 0.0 then 1.0 - Warp(e, -curve, 1.0 - normalized)
    else Warp(e, curve, normalized)
  }

  /** `onda_processor_lincurve_unit_to_normalized`. */
  function CurveFromUnit(e: Elementary, curve: real, unit: real): real {
    if Abs(curve) < 0.001 then unit
    else if curve > 0.0 then 1.0 - Unwarp(e, -curve, 1.0 - unit)
    else Unwarp(e, curve, unit)
  }

  lemma CurveDenominators(e: Elementary, curve: real)
    requires e.Laws() && Abs(curve) >= 0.001
    ensures curve > 0.0 ==> -1.0 < e.expm1(-curve) < 0.0 < e.expm1(curve)
    ensures curve < 0.0 ==> -1.0 < e.expm1(curve) < 0.0 < e.expm1(-curve)
  {
    hide Elementary.Laws;
    Expm1Sign(e, curve);
    Expm1Sign(e, -curve);
  }

  function UnitNumber(normalized: Number): real {
    match normalized
    case NotANumber => 0.0
    case NegativeInfinity => 0.0
    case PositiveInfinity => 1.0
    case Finite(x) => Min(1.0, Max(0.0, x))
  }

  /** The point a fraction of the way between the logarithms of the bounds. */
  function LogPoint(e: Elementary, d: Domain, u: real): real {
    e.exp(e.log(d.minimum) + Times(u, e.log(d.maximum) - e.log(d.minimum)))
  }

  function LogFraction(e: Elementary, d: Domain, x: real): real
    requires e.log(d.minimum) != e.log(d.maximum)
  {
    Over(e.log(x) - e.log(d.minimum), e.log(d.maximum) - e.log(d.minimum))
  }

  /** The plain value of a position strictly between the ends, before constraining. */
  ghost function Interior(e: Elementary, d: Domain, unit: real): real
    requires e.Laws()
  {
    if d.hasCurve then
      (if Abs(d.curve) >= 0.001 then CurveDenominators(e, d.curve); d.minimum + CurveToUnit(e, d.curve, unit) * (d.maximum - d.minimum)
       else d.minimum + CurveToUnit(e, d.curve, unit) * (d.maximum - d.minimum))
    else if d.scale == Logarithmic then LogPoint(e, d, unit)
    else d.minimum + unit * (d.maximum - d.minimum)
  }

  /** `onda_processor_param_normalized_to_plain`. */
  ghost function NormalizedToPlain(e: Elementary, d: Domain, normalized: Number): Number
    requires e.Laws()
  {
    if !IsValid(d) then NotANumber
    else
      var unit := UnitNumber(normalized);
      if unit == 0.0 then Finite(d.minimum)
      else if unit == 1.0 then Finite(d.maximum)
      else Constrain(d, Finite(Interior(e, d, unit)))
  }

  /** The position of a constrained value strictly between the ends. */
  ghost function Position(e: Elementary, d: Domain, x: real): real
    requires e.Laws() && IsValid(d)
  {
    var unit := (x - d.minimum) / (d.maximum - d.minimum);
    if d.hasCurve then CurveFromUnit(e, d.curve, unit)
    else if d.scale == Logarithmic then
      LogWidth(e, d);
      LogFraction(e, d, x)
    else unit
  }

  lemma LogWidth(e: Elementary, d: Domain)
    requires e.Laws() && 0.0 < d.minimum < d.maximum
    ensures e.log(d.minimum) < e.log(d.maximum)
  {
    LogIncreases(e, d.minimum, d.maximum);
  }

  /** `onda_processor_param_plain_to_normalized`. */
  ghost function PlainToNormalized(e: Elementary, d: Domain, plain: Number): Number
    requires e.Laws()
  {
    if !IsValid(d) then NotANumber
    else
      var constrained := Constrain(d, plain).value;
      if constrained == d.minimum then Finite(0.0)
      else if constrained == d.maximum then Finite(1.0)
      else Finite(Min(1.0, Max(0.0, Position(e, d, constrained))))
  }

  // ------------------------------------------------------------ constraining

  /** Extended-real order, with "not a number" below everything as the code treats it. */
  predicate AtMost(a: Number, b: Number) {
    match (a, b)
    case (NotANumber, _) => true
    case (NegativeInfinity, _) => true
    case (_, PositiveInfinity) => true
    case (Finite(x), Finite(y)) => x <= y
    case _ => false
  }

  lemma FloorMonotone(x: real, y: real)
    requires x <= y
    ensures x.Floor <= y.Floor
  {
  }

  lemma OverMonotone(x: real, y: real, step: real)
    requires x <= y && step > 0.0
    ensures Over(x, step) <= Over(y, step)
  {
    assert y / step - x / step == (y - x) / step;
  }

  lemma TimesMonotone(k: int, l: int, step: real)
    requires k <= l && step > 0.0
    ensures Times(k as real, step) <= Times(l as real, step)
  {
    assert (l - k) as real >= 0.0;
    assert l as real * step - k as real * step == (l as real - k as real) * step;
  }

  lemma SnapMonotone(d: Domain, x: real, y: real)
    requires d.step > 0.0 && x <= y
    ensures Snap(d, x) <= Snap(d, y)
  {
    hide Times, Over;
    OverMonotone(x - d.minimum, y - d.minimum, d.step);
    FloorMonotone(Over(x - d.minimum, d.step) + 0.5, Over(y - d.minimum, d.step) + 0.5);
    TimesMonotone(StepIndex(d, x), StepIndex(d, y), d.step);
  }

  /** Constraining is monotone. */
  lemma ConstrainMonotone(d: Domain, a: Number, b: Number)
    requires IsValid(d) && AtMost(a, b)
    ensures AtMost(Constrain(d, a), Constrain(d, b))
    ensures Constrain(d, a).Finite? && Constrain(d, b).Finite?
  {
    if d.stepCount != 0 {
      SnapMonotone(d, ClampNumber(d, a), ClampNumber(d, b));
    }
  }

  lemma ProductNonnegative(a: real, b: real)
    requires a >= 0.0 && b >= 0.0
    ensures a * b >= 0.0
  {
  }

  /** The snapped value is within half a step, ties going upwards. */
  lemma SnapNear(d: Domain, x: real)
    requires d.step > 0.0
    ensures x - d.step / 2.0 < Snap(d, x) <= x + d.step / 2.0
  {
    hide Times, Over;
    var q := Over(x - d.minimum, d.step);
    var k := StepIndex(d, x) as real;
    assert q - 0.5 < k <= q + 0.5;
    OverTimes(x - d.minimum, d.step);
    HalfStep(q, k, d.step);
  }

  lemma HalfStep(q: real, k: real, step: real)
    requires step > 0.0 && q - 0.5 < k <= q + 0.5
    ensures Times(q, step) - step / 2.0 < Times(k, step) <= Times(q, step) + step / 2.0
  {
    ShiftedTimes(k, q, -0.5, k - q + 0.5, step);
    ShiftedTimes(q, k, -0.5, q + 0.5 - k, step);
    ProductPositive(k - q + 0.5, step);
    ProductNonnegative(q + 0.5 - k, step);
    HalfOf(step);
    hide Times;
  }

  lemma HalfOf(step: real)
    ensures Times(-0.5, step) == -(step / 2.0)
  {
  }

  lemma ShiftedTimes(sum: real, a: real, b: real, c: real, step: real)
    requires sum == a + b + c
    ensures Times(sum, step) == Times(a, step) + Times(b, step) + c * step
  {
    assert (a + b + c) * step == a * step + b * step + c * step;
  }

  /** A grid point. */
  ghost predicate OnGrid(d: Domain, x: real) {
    exists k: int :: GridPoint(d, k) == x
  }

  /** Constraining stays within bounds and within half a step of the clamped input
      (ties going upwards). It lands on the declared grid, except that an input that
      snaps beyond a maximum off the grid lands on that maximum. */
  lemma ConstrainLands(d: Domain, plain: Number)
    requires IsValid(d)
    ensures var x, r := ClampNumber(d, plain), Constrain(d, plain);
      && r.Finite?
      && d.minimum <= r.value <= d.maximum
      && (d.stepCount == 0 ==> r.value == x)
      && (d.stepCount != 0 ==>
            && x - d.step / 2.0 < r.value <= x + d.step / 2.0
            && (OnGrid(d, r.value) <==> Snap(d, x) <= d.maximum || OnGrid(d, d.maximum)))
  {
    hide Snap, GridPoint;
    if d.stepCount != 0 {
      var x := ClampNumber(d, plain);
      SnapNear(d, x);
      SnapOnGrid(d, x);
      GridOrigin(d);
      SnapMonotone(d, d.minimum, x);
      SnapGridPoint(d, 0);
    }
  }

  lemma GridPointsOrdered(d: Domain, j: int, k: int)
    requires d.step > 0.0
    ensures j < k <==> GridPoint(d, j) < GridPoint(d, k)
  {
    hide Times;
    if j < k {
      TimesMonotone(j + 1, k, d.step);
      StepUp(j, d.step);
    } else {
      TimesMonotone(k, j, d.step);
    }
  }

  lemma StepUp(j: int, step: real)
    ensures Times((j + 1) as real, step) == Times(j as real, step) + step
  {
    assert (j as real + 1.0) * step == j as real * step + step;
  }

  /** A domain whose grid reaches its maximum constrains to one of the points counted
      from zero to the step count. */
  lemma ConstrainToDeclaredPoint(d: Domain, plain: Number)
    requires IsValid(d) && d.stepCount != 0 && GridPoint(d, d.stepCount) == d.maximum
    ensures Constrain(d, plain).Finite?
    ensures exists k :: 0 <= k <= d.stepCount && GridPoint(d, k) == Constrain(d, plain).value
  {
    hide Snap, GridPoint;
    ConstrainLands(d, plain);
    var r := Constrain(d, plain).value;
    assert OnGrid(d, d.maximum);
    var k :| GridPoint(d, k) == r;
    GridOrigin(d);
    GridPointsOrdered(d, k, 0);
    GridPointsOrdered(d, d.stepCount, k);
  }

  lemma GridOrigin(d: Domain)
    ensures GridPoint(d, 0) == d.minimum
  {
  }

  lemma SnapOnGrid(d: Domain, x: real)
    requires d.step > 0.0
    ensures OnGrid(d, Snap(d, x))
    ensures Snap(d, Snap(d, x)) == Snap(d, x)
  {
    hide GridPoint;
    SnapGridPoint(d, StepIndex(d, x));
  }

  /** A grid point snaps to itself. */
  lemma SnapGridPoint(d: Domain, k: int)
    requires d.step > 0.0
    ensures Snap(d, GridPoint(d, k)) == GridPoint(d, k)
  {
    hide Times, Over;
    OverTimes(k as real, d.step);
    assert (k as real + 0.5).Floor == k;
  }

  lemma SettleIdempotent(d: Domain, x: real)
    requires IsValid(d) && d.minimum <= x <= d.maximum
    ensures Settle(d, Settle(d, x)) == Settle(d, x)
  {
    hide Snap, GridPoint;
    if d.stepCount != 0 {
      SnapOnGrid(d, x);
      SnapMonotone(d, d.minimum, x);
      GridOrigin(d);
      SnapGridPoint(d, 0);
      if Snap(d, x) > d.maximum {
        SnapMonotone(d, x, d.maximum);
      }
    }
  }

  /** Constraining twice is constraining once. */
  lemma ConstrainIdempotent(d: Domain, plain: Number)
    requires IsValid(d)
    ensures Constrain(d, Constrain(d, plain)) == Constrain(d, plain)
  {
    ConstrainLands(d, plain);
    SettleIdempotent(d, ClampNumber(d, plain));
  }

  /** Integer domains constrain to integers of the domain: the declared points. */
  lemma IntegerDomainsStayIntegral(d: Domain, plain: Number)
    requires IsValid(d) && IsIntegerScalar(d.scalar)
    ensures Constrain(d, plain).Finite? && IsInteger(Constrain(d, plain).value)
    ensures exists k :: 0 <= k <= d.stepCount && GridPoint(d, k) == Constrain(d, plain).value
  {
    hide Snap, GridPoint;
    MaximumOnGrid(d);
    ConstrainToDeclaredPoint(d, plain);
    var k :| 0 <= k <= d.stepCount && GridPoint(d, k) == Constrain(d, plain).value;
    GridPointIntegral(d, k);
  }

  lemma GridPointIntegral(d: Domain, k: int)
    requires IsInteger(d.minimum) && IsInteger(d.step)
    ensures IsInteger(GridPoint(d, k))
  {
    var m, s := d.minimum.Floor, d.step.Floor;
    RealProduct(k, s);
    assert GridPoint(d, k) == (m + k * s) as real;
  }

  lemma MaximumOnGrid(d: Domain)
    requires IsValid(d) && IsIntegerScalar(d.scalar)
    ensures d.stepCount != 0 && GridPoint(d, d.stepCount) == d.maximum
  {
    var width, step := d.maximum.Floor - d.minimum.Floor, d.step.Floor;
    ExactQuotient(width, step);
    GridEnds(d, width, step);
  }

  lemma GridEnds(d: Domain, width: int, step: int)
    requires IsInteger(d.minimum) && IsInteger(d.maximum) && IsInteger(d.step)
    requires width == d.maximum.Floor - d.minimum.Floor && step == d.step.Floor && width == d.stepCount * step
    ensures GridPoint(d, d.stepCount) == d.maximum
  {
    RealProduct(d.stepCount, step);
    assert width as real == d.maximum - d.minimum;
  }

  lemma ExactQuotient(width: int, step: int)
    requires step > 0 && width % step == 0
    ensures width == width / step * step
  {
  }

  lemma RealProduct(a: int, b: int)
    ensures (a * b) as real == a as real * b as real
  {
  }

  // ------------------------------------------------------------ conversions

  /** A quotient strictly between zero and the divisor lies strictly inside (0, 1). */
  lemma QuotientInside(a: real, b: real)
    requires 0.0 < a < b || b < a < 0.0
    ensures 0.0 < a / b < 1.0
  {
    if b > 0.0 {
      PositiveQuotientInside(a, b);
    } else {
      PositiveQuotientInside(-a, -b);
      assert a / b == (-a) / (-b);
    }
  }

  lemma PositiveQuotientInside(a: real, b: real)
    requires 0.0 < a < b
    ensures 0.0 < a / b < 1.0
  {
    Cancels(a, b);
    var q := a / b;
    assert (q - 1.0) * b == a - b;
    assert -q * b == -a;
    if q >= 1.0 {
      ProductNonnegative(q - 1.0, b);
    }
    if q <= 0.0 {
      ProductNonnegative(-q, b);
    }
  }

  lemma ScaledInside(u: real, b: real)
    requires 0.0 < u < 1.0 && b < 0.0
    ensures b < u * b < 0.0
  {
    ProductPositive(1.0 - u, -b);
    ProductPositive(u, -b);
    assert (1.0 - u) * -b == u * b - b;
  }

  lemma ProductPositive(a: real, b: real)
    requires a > 0.0 && b > 0.0
    ensures a * b > 0.0
  {
  }

  lemma Cancels(a: real, b: real)
    requires b != 0.0
    ensures a / b * b == a && b * (a / b) == a && a * b / b == a
  {
  }

  lemma OverInside(a: real, b: real)
    requires b < a < 0.0 || 0.0 < a < b
    ensures 0.0 < Over(a, b) < 1.0
  {
    QuotientInside(a, b);
  }

  lemma TimesInside(u: real, b: real)
    requires 0.0 < u < 1.0 && b < 0.0
    ensures b < Times(u, b) < 0.0
  {
    assert Times(u, b) == u * b;
    ScaledInside(u, b);
  }

  lemma TimesReverses(a: real, u: real, v: real)
    requires a < 0.0 && u < v
    ensures Times(a, v) < Times(a, u)
  {
    ProductPositive(v - u, -a);
    assert (v - u) * -a == a * u - a * v;
  }

  /** Unwarping stays inside (0, 1), and warping undoes it. */
  lemma WarpInverts(e: Elementary, exponent: real, u: real)
    requires e.Laws() && exponent < 0.0 && 0.0 < u < 1.0
    ensures -1.0 < e.expm1(exponent) < 0.0
    ensures 0.0 < Unwarp(e, exponent, u) < 1.0
    ensures Warp(e, exponent, Unwarp(e, exponent, u)) == u
  {
    hide Elementary.Laws, Times, Over;
    var d := e.expm1(exponent);
    Expm1Sign(e, exponent);
    TimesInside(u, d);
    var x := Times(u, d);
    Log1pIncreases(e, d, x);
    Log1pIncreases(e, x, 0.0);
    Log1pInverts(e, exponent);
    Log1pInverts(e, x);
    OverInside(e.log1p(x), exponent);
    OverTimes(e.log1p(x), exponent);
    OverTimes(u, d);
  }

  lemma WarpMonotone(e: Elementary, exponent: real, u: real, v: real)
    requires e.Laws() && exponent < 0.0 && u < v
    ensures -1.0 < e.expm1(exponent) < 0.0
    ensures Warp(e, exponent, u) <= Warp(e, exponent, v)
  {
    hide Elementary.Laws, Times, Over;
    Expm1Sign(e, exponent);
    TimesReverses(exponent, u, v);
    Expm1Increases(e, Times(exponent, v), Times(exponent, u));
    DivideByNegative(e.expm1(Times(exponent, v)), e.expm1(Times(exponent, u)), e.expm1(exponent));
  }

  lemma DivideByNegative(a: real, b: real, d: real)
    requires a <= b && d < 0.0
    ensures Over(b, d) <= Over(a, d)
  {
    Cancels(a, d);
    Cancels(b, d);
    var p, q := a / d, b / d;
    assert (q - p) * -d == a - b;
    if q > p {
      ProductPositive(q - p, -d);
    }
  }

  /** The inverse curve stays inside (0, 1), and the curve undoes it. */
  lemma CurveInverts(e: Elementary, curve: real, unit: real)
    requires e.Laws() && 0.0 < unit < 1.0
    requires Abs(curve) >= 0.001 ==> e.expm1(curve) != 0.0 && e.expm1(-curve) != 0.0
    ensures 0.0 < CurveFromUnit(e, curve, unit) < 1.0
    ensures CurveToUnit(e, curve, CurveFromUnit(e, curve, unit)) == unit
  {
    hide Elementary.Laws, Warp, Unwarp;
    if curve >= 0.001 {
      WarpInverts(e, -curve, 1.0 - unit);
      assert 1.0 - CurveFromUnit(e, curve, unit) == Unwarp(e, -curve, 1.0 - unit);
    } else if curve <= -0.001 {
      WarpInverts(e, curve, unit);
    }
  }

  lemma LogInverts(e: Elementary, d: Domain, x: real)
    requires e.Laws() && 0.0 < d.minimum < x < d.maximum
    ensures e.log(d.minimum) < e.log(d.maximum)
    ensures 0.0 < LogFraction(e, d, x) < 1.0
    ensures LogPoint(e, d, LogFraction(e, d, x)) == x
  {
    hide Elementary.Laws, Times, Over;
    LogIncreases(e, d.minimum, x);
    LogIncreases(e, x, d.maximum);
    OverInside(e.log(x) - e.log(d.minimum), e.log(d.maximum) - e.log(d.minimum));
    OverTimes(e.log(x) - e.log(d.minimum), e.log(d.maximum) - e.log(d.minimum));
    ExpOfLog(e, x);
  }

  /** Inside the bounds, the position lies strictly inside (0, 1) and leads back. */
  lemma PositionInverts(e: Elementary, d: Domain, x: real)
    requires e.Laws() && IsValid(d) && d.minimum < x < d.maximum
    ensures 0.0 < Position(e, d, x) < 1.0
    ensures Interior(e, d, Position(e, d, x)) == x
  {
    hide Elementary.Laws, CurveToUnit, CurveFromUnit, LogPoint, LogFraction;
    var width := d.maximum - d.minimum;
    var unit := (x - d.minimum) / width;
    QuotientInside(x - d.minimum, width);
    Cancels(x - d.minimum, width);
    if d.hasCurve {
      if Abs(d.curve) >= 0.001 {
        CurveDenominators(e, d.curve);
      }
      CurveInverts(e, d.curve, unit);
    } else if d.scale == Logarithmic {
      LogInverts(e, d, x);
    }
  }

  /** Plain to normalized to plain is constraining, for linear, curved and
      logarithmic domains and any input, the infinities and NaN included. */
  lemma PlainRoundTrip(e: Elementary, d: Domain, plain: Number)
    requires e.Laws()
    ensures NormalizedToPlain(e, d, PlainToNormalized(e, d, plain)) == Constrain(d, plain)
  {
    hide Position, Interior, Settle, Elementary.Laws;
    if IsValid(d) {
      ConstrainLands(d, plain);
      var c := Constrain(d, plain).value;
      if d.minimum < c < d.maximum {
        PositionInverts(e, d, c);
        ConstrainIdempotent(d, plain);
      }
    }
  }

  /** A normalized value always lies in [0, 1]. */
  lemma NormalizedInUnit(e: Elementary, d: Domain, plain: Number)
    requires e.Laws() && IsValid(d)
    ensures var r := PlainToNormalized(e, d, plain);
      r.Finite? && 0.0 <= r.value <= 1.0
      && (r.value == 0.0 <==> Constrain(d, plain) == Finite(d.minimum))
      && (r.value == 1.0 <==> Constrain(d, plain) == Finite(d.maximum))
  {
    hide Position, Interior, Settle, Elementary.Laws;
    ConstrainLands(d, plain);
    var c := Constrain(d, plain).value;
    if d.minimum < c < d.maximum {
      PositionInverts(e, d, c);
    }
  }

  lemma CurveMonotone(e: Elementary, curve: real, u: real, v: real)
    requires e.Laws() && u < v
    requires Abs(curve) >= 0.001 ==> e.expm1(curve) != 0.0 && e.expm1(-curve) != 0.0
    ensures CurveToUnit(e, curve, u) <= CurveToUnit(e, curve, v)
  {
    hide Elementary.Laws, Warp;
    if curve >= 0.001 {
      WarpMonotone(e, -curve, 1.0 - v, 1.0 - u);
    } else if curve <= -0.001 {
      WarpMonotone(e, curve, u, v);
    }
  }

  lemma LogPointMonotone(e: Elementary, d: Domain, u: real, v: real)
    requires e.Laws() && 0.0 < d.minimum < d.maximum && u < v
    ensures LogPoint(e, d, u) <= LogPoint(e, d, v)
  {
    hide Elementary.Laws, Times;
    LogWidth(e, d);
    var width := e.log(d.maximum) - e.log(d.minimum);
    TimesKeepsOrder(u, v, width);
    ExpIncreases(e, e.log(d.minimum) + Times(u, width), e.log(d.minimum) + Times(v, width));
  }

  lemma TimesKeepsOrder(u: real, v: real, width: real)
    requires width > 0.0 && u <= v
    ensures Times(u, width) <= Times(v, width)
  {
    WidthMonotone(width, u, v);
  }

  lemma InteriorMonotone(e: Elementary, d: Domain, u: real, v: real)
    requires e.Laws() && IsValid(d) && u <= v
    ensures Interior(e, d, u) <= Interior(e, d, v)
  {
    hide Elementary.Laws, CurveToUnit, LogPoint;
    if u < v {
      if d.hasCurve {
        if Abs(d.curve) >= 0.001 {
          CurveDenominators(e, d.curve);
        }
        CurveMonotone(e, d.curve, u, v);
        WidthMonotone(d.maximum - d.minimum, CurveToUnit(e, d.curve, u), CurveToUnit(e, d.curve, v));
      } else if d.scale == Logarithmic {
        LogPointMonotone(e, d, u, v);
      } else {
        WidthMonotone(d.maximum - d.minimum, u, v);
      }
    }
  }

  lemma WidthMonotone(width: real, u: real, v: real)
    requires width > 0.0 && u <= v
    ensures u * width <= v * width
  {
    ProductNonnegative(v - u, width);
    assert (v - u) * width == v * width - u * width;
  }

  /** Turning a control up never turns the parameter down. */
  lemma NormalizedToPlainMonotone(e: Elementary, d: Domain, a: Number, b: Number)
    requires e.Laws() && IsValid(d) && AtMost(a, b)
    ensures AtMost(NormalizedToPlain(e, d, a), NormalizedToPlain(e, d, b))
  {
    hide Position, Interior, Settle, Elementary.Laws;
    var u, v := UnitNumber(a), UnitNumber(b);
    if u != 0.0 && v != 1.0 {
      InteriorMonotone(e, d, u, v);
      ConstrainMonotone(d, Finite(Interior(e, d, u)), Finite(Interior(e, d, v)));
    }
    if u != 0.0 && u != 1.0 {
      ConstrainLands(d, Finite(Interior(e, d, u)));
    }
    if v != 0.0 && v != 1.0 {
      ConstrainLands(d, Finite(Interior(e, d, v)));
    }
  }
}
