/** The integer path of human_readable in src/gnu/human.c: unit conversion, autoscaling, rounding and digits. */
module Human {
  import opened HumanModel
  import opened Products
  import opened Decimals
  import Anytostr

  datatype Style = Ceiling | Nearest | Floor

  /** The greatest power letter: 8 stands for yotta. */
  const EXPONENT_MAX := 8

  // ---------------------------------------------------------------- what rounding means

  /** value, which is `steps` units, is v rounded in the given style: up, down, or to the nearest with ties to even. */
  ghost predicate Rounds(style: Style, v: real, value: real, unit: real, steps: int) {
    && value == steps as real * unit
    && match style
      case Ceiling => v <= value < v + unit
      case Floor => value <= v < value + unit
      case Nearest =>
        && -unit <= 2.0 * (value - v) <= unit
        && (2.0 * (value - v) == unit || 2.0 * (v - value) == unit ==> steps % 2 == 0)
  }

  /** The test that decides whether the tenths go up. */
  predicate TenthsUp(style: Style, tenths: int, rounding: int) {
    if style == Nearest then 2 < rounding + tenths % 2 else style == Ceiling && 0 < rounding
  }

  /** The test that decides whether the whole number goes up. */
  predicate WholeUp(style: Style, amt: nat, tenths: int, rounding: int) {
    if style == Nearest then 5 < tenths + (if 0 < rounding + amt % 2 then 1 else 0)
    else style == Ceiling && 0 < tenths + rounding
  }

  lemma TenthsRound(style: Style, amt: nat, tenths: int, rounding: int, v: real)
    requires Describes(amt, tenths, rounding, v)
    ensures var steps := 10 * amt + tenths + (if TenthsUp(style, tenths, rounding) then 1 else 0);
      Rounds(style, v, steps as real / 10.0, 0.1, steps)
  {
  }

  lemma WholeRounds(style: Style, amt: nat, tenths: int, rounding: int, v: real)
    requires Describes(amt, tenths, rounding, v)
    ensures var steps := amt + (if WholeUp(style, amt, tenths, rounding) then 1 else 0);
      Rounds(style, v, steps as real, 1.0, steps)
  {
  }

  /** Rounded to tenths with no tenths left, the number is rounded to a whole one as well. */
  lemma NoTenthsLeft(style: Style, v: real, amt: int)
    requires Rounds(style, v, (10 * amt) as real / 10.0, 0.1, 10 * amt)
    ensures Rounds(style, v, amt as real, 1.0, amt)
  {
  }

  lemma SmallFactor(b: real, d: real)
    requires b >= 1000.0 && -1.0 <= b * d <= 1.0
    ensures -0.001 <= d <= 0.001 && (d < 0.0 <==> b * d < 0.0) && (d > 0.0 <==> b * d > 0.0)
  {
    MulOrder(b, d, 0.0);
    MulOrder(b, 0.0, d);
    MulOrder(b, 0.001, d);
    MulOrder(b, d, -0.001);
  }

  /** The carry into the next exponent: the base as a whole number is one, or one point zero, of the next unit. */
  lemma CarryRounds(style: Style, base: int, v: real, w: real, unit: real)
    requires base >= 1000 && Rounds(style, v, base as real, 1.0, base) && v == base as real * w
    requires unit == 1.0 || unit == 0.1
    ensures Rounds(style, w, 1.0, unit, if unit == 1.0 then 1 else 10)
  {
    var b, d := base as real, w - 1.0;
    assert b * d == v - b;
    SmallFactor(b, d);
  }

  /** Rounding of the scaled value, said of the value itself. */
  lemma RoundsScaled(
    style: Style, v: real, value: real, unit: real, steps: int, s: real, sv: real, svalue: real, sunit: real)
    requires Rounds(style, v, value, unit, steps) && s > 0.0
    requires sv == s * v && svalue == s * value && sunit == s * unit
    ensures Rounds(style, sv, svalue, sunit, steps)
  {
    assert s * value == steps as real * (s * unit);
    OrderOfProducts(s, value, v, svalue, sv);
    assert s * (v + unit) == sv + sunit && s * (value + unit) == svalue + sunit;
    OrderOfProducts(s, value, v + unit, svalue, sv + sunit);
    OrderOfProducts(s, v, value + unit, sv, svalue + sunit);
    assert s * (2.0 * (value - v)) == 2.0 * (svalue - sv) && s * (2.0 * (v - value)) == 2.0 * (sv - svalue);
    OrderOfProducts(s, 2.0 * (value - v), unit, 2.0 * (svalue - sv), sunit);
    OrderOfProducts(s, 2.0 * (v - value), unit, 2.0 * (sv - svalue), sunit);
  }

  // ---------------------------------------------------------------- numbers as printed

  /** A number as it is printed: whole digits, then perhaps a point and one digit of tenths. An exponent of -1 says that
      autoscaling is off. */
  datatype Number = Number(amt: nat, point: bool, tenth: nat, exponent: int)

  function Steps(num: Number): nat {
    if num.point then 10 * num.amt + num.tenth else num.amt
  }

  /** The number that the printed digits show. */
  function Shown(num: Number): real {
    Steps(num) as real * Unit(num)
  }

  function Unit(num: Number): real {
    if num.point then 0.1 else 1.0
  }

  /** The factor that the exponent stands for. */
  function Factor(base: nat, exponent: int): (r: real)
    ensures base > 0 ==> r > 0.0
  {
    if exponent <= 0 then 1.0 else Pow(base, exponent) as real
  }

  lemma FactorIsPositive(base: nat, exponent: int)
    requires base > 0
    ensures Factor(base, exponent) > 0.0
  {
  }

  lemma FactorStep(base: nat, e: nat)
    ensures Factor(base, e + 1) == base as real * Factor(base, e)
  {
  }

  /** The number that digits and exponent show, and the unit of its last digit. */
  function Printed(num: Number, base: nat): real {
    Factor(base, num.exponent) * Shown(num)
  }

  function PrintedUnit(num: Number, base: nat): real {
    Factor(base, num.exponent) * Unit(num)
  }

  /** The printed number times base^exponent is v rounded in the given style, to one printed unit. */
  ghost predicate Prints(num: Number, style: Style, base: nat, v: real) {
    Rounds(style, v, Printed(num, base), PrintedUnit(num, base), Steps(num))
  }

  function Multiple(k: int, f: real): real {
    k as real * f
  }

  /** With this exponent, v is rounded to the whole number k. */
  ghost predicate WholeAt(style: Style, base: nat, v: real, exponent: int, k: int) {
    Rounds(style, v, Multiple(k, Factor(base, exponent)), Factor(base, exponent), k)
  }

  /** No smaller exponent would do: with the next one down, the whole number would not be below the base. */
  ghost predicate Least(num: Number, style: Style, base: nat, v: real) {
    var below := num.exponent - 1;
    num.exponent > 0 ==> forall k :: WholeAt(style, base, v, below, k) ==> k >= base
  }

  lemma MultipleBelow(k: int, b: int, f: real)
    requires k < b && f > 0.0
    ensures Multiple(k, f) <= Multiple(b, f) - f && (k < b - 1 ==> Multiple(k, f) < Multiple(b, f) - f)
  {
    var d := (b - 1 - k) as real;
    assert d >= 0.0 && d * f >= 0.0 && (d > 0.0 ==> d * f > 0.0);
    assert d * f == b as real * f - f - k as real * f;
  }

  /** A rounded number is less than a unit below the value. */
  lemma NotFarBelow(style: Style, v: real, value: real, unit: real, steps: int)
    requires unit > 0.0 && Rounds(style, v, value, unit, steps)
    ensures value > v - unit
  {
  }

  /** Two numbers that a value is rounded to are the same, or a tie would leave an even one. */
  lemma RoundedTwice(style: Style, v: real, low: real, k: int, high: real, b: int, unit: real)
    requires unit > 0.0 && low <= high - unit
    requires Rounds(style, v, low, unit, k) && Rounds(style, v, high, unit, b)
    ensures low == high - unit && k % 2 == 0
  {
  }

  /** A value of a whole base needs the next exponent. */
  lemma LargeNeedsExponent(style: Style, base: nat, v: real, e: nat)
    requires base > 0 && v >= Factor(base, e + 1)
    ensures forall k :: WholeAt(style, base, v, e, k) ==> k >= base
  {
    var f := Factor(base, e);
    assert v >= Multiple(base, f) by {
      FactorStep(base, e);
    }
    FactorIsPositive(base, e);
    hide Multiple, Factor, Rounds;
    forall k | WholeAt(style, base, v, e, k)
      ensures k >= base
    {
      NotFarBelow(style, v, Multiple(k, f), f, k);
      if k < base {
        MultipleBelow(k, base, f);
      }
    }
  }

  /** So does a value that is rounded to the base; of two candidates that are equally near, the even one is taken. */
  lemma CarryNeedsExponent(style: Style, base: nat, v: real, e: int)
    requires base > 0 && base % 2 == 0 && WholeAt(style, base, v, e, base)
    ensures forall k :: WholeAt(style, base, v, e, k) ==> k >= base
  {
    var f := Factor(base, e);
    FactorIsPositive(base, e);
    hide Multiple, Factor, Rounds;
    forall k | WholeAt(style, base, v, e, k)
      ensures k >= base
    {
      if k < base {
        MultipleBelow(k, base, f);
        RoundedTwice(style, v, Multiple(k, f), k, Multiple(base, f), base, f);
      }
    }
  }

  /** How an autoscaled number looks: below the base, and with tenths just when it is small and scaled. */
  predicate Normal(num: Number, base: nat, autoscale: bool, suppressZero: bool) {
    && (num.exponent == -1 <==> !autoscale)
    && -1 <= num.exponent <= EXPONENT_MAX
    && (num.exponent > 0 ==> num.amt > 0)
    && (autoscale ==> num.amt < base)
    && (num.point <==> num.exponent > 0 && num.amt < 10 && (num.tenth != 0 || !suppressZero))
    && num.tenth < 10
  }

  function Output(num: Number): string {
    Decimal(num.amt) + (if num.point then ['.', Digit(num.tenth % 10)] else [])
  }

  // ---------------------------------------------------------------- the unit conversion

  /** Whether the conversion is done with integers. */
  predicate IntegerPath(n: nat, fromSize: nat, toSize: nat)
    requires toSize > 0
  {
    if toSize <= fromSize then fromSize % toSize == 0 && n * (fromSize / toSize) < WRAP
    else fromSize != 0 && toSize % fromSize == 0
  }

  /** Whether the division, if there is one, stays within uintmax_t. */
  predicate DivisionFits(n: nat, fromSize: nat, toSize: nat) {
    0 < fromSize < toSize && toSize / fromSize > 0 ==> Fits(n, toSize / fromSize)
  }

  /** The integer path is taken there all the same. */
  lemma WrapIsReached()
    ensures var n, d := 0xFFFF_FFFF_FFFF_FFFF, 0x8000_0000_0000_0000; IntegerPath(n, 1, d) && !DivisionFits(n, 1, d)
  {
    SetupCanWrap();
  }

  lemma Quotient(a: nat, b: nat)
    requires 0 < b < a && a % b == 0
    ensures 2 <= a / b <= a && a == b * (a / b)
  {
    DivMod(a, b);
    if a / b < 2 {
      MulLe(b, a / b, 1);
    }
    MulLe(a / b, 1, b);
  }

  /** The integer path is taken when one size is k times the other and the multiplied number fits, and when neither is
      a multiple of the other it is not. */
  lemma IntegerPathMeans(n: nat, fromSize: nat, toSize: nat, k: nat)
    requires toSize > 0
    ensures k > 0 && fromSize == k * toSize ==> (IntegerPath(n, fromSize, toSize) <==> n * k < WRAP)
    ensures k > 1 && fromSize > 0 && toSize == k * fromSize ==> IntegerPath(n, fromSize, toSize)
    ensures fromSize % toSize != 0 && (fromSize == 0 || toSize % fromSize != 0) ==> !IntegerPath(n, fromSize, toSize)
    ensures fromSize == 0 ==> !IntegerPath(n, fromSize, toSize)
  {
    if k > 0 && fromSize == k * toSize {
      MulLe(toSize, 1, k);
      QuotientOfMultiple(fromSize, k, toSize);
    }
    if k > 1 && fromSize > 0 && toSize == k * fromSize {
      MulLe(fromSize, 2, k);
      QuotientOfMultiple(toSize, k, fromSize);
    }
  }

  lemma QuotientOfMultiple(a: nat, k: nat, b: nat)
    requires b > 0 && a == k * b
    ensures a / b == k && a % b == 0
  {
    DivMod(a, b);
    if a / b < k {
      MulLe(b, a / b + 1, k);
    } else if a / b > k {
      MulLe(b, k + 1, a / b);
    }
  }

  lemma Halved(n: nat, divisor: nat)
    requires divisor >= 2
    ensures 2 * (n / divisor) <= n
  {
    DivMod(n, divisor);
    MulLe(n / divisor, 2, divisor);
  }

  /** The wrapped products of the division still give a digit and a code. */
  lemma SetupInRange(n: nat, divisor: nat)
    requires 0 < divisor < WRAP
    ensures var r10 := (n % divisor) * 10 % WRAP;
      0 <= r10 / divisor <= 9 && 0 <= SetupRounding(divisor, (r10 % divisor) * 2 % WRAP) <= 3
  {
    var r10 := (n % divisor) * 10 % WRAP;
    DivMod(n, divisor);
    assert r10 <= (n % divisor) * 10 < 10 * divisor;
    DivMod(r10, divisor);
    QuotientInRange(divisor, r10 / divisor, r10 % divisor);
  }

  lemma Multiplier(fromSize: nat, toSize: nat)
    requires 0 < toSize <= fromSize && fromSize % toSize == 0
    ensures 0 < fromSize / toSize <= fromSize && fromSize == toSize * (fromSize / toSize)
  {
    DivMod(fromSize, toSize);
    if fromSize / toSize <= 0 {
      MulLe(toSize, fromSize / toSize, 0);
    } else {
      MulLe(fromSize / toSize, 1, toSize);
    }
  }

  datatype Code = Code(amt: nat, tenths: int, rounding: int)

  /** What the division at the start of human_readable leaves, its products wrapping around. */
  function Divided(n: nat, divisor: nat): Code
    requires divisor > 0
  {
    var r10 := (n % divisor) * 10 % WRAP;
    Code(n / divisor, r10 / divisor, SetupRounding(divisor, (r10 % divisor) * 2 % WRAP))
  }

  method Divide(n: nat, divisor: nat) returns (amt: nat, tenths: int, rounding: int)
    requires divisor > 0
    ensures Code(amt, tenths, rounding) == Divided(n, divisor)
  {
    var r10 := (n % divisor) * 10 % WRAP;
    var r2 := (r10 % divisor) * 2 % WRAP;
    amt := n / divisor;
    tenths := r10 / divisor;
    rounding := if r2 < divisor then (if 0 < r2 then 1 else 0) else 2 + (if divisor < r2 then 1 else 0);
  }

  /** The division is exact just when it fits, and leaves a digit and a code in any case. */
  lemma DividedDescribes(n: nat, divisor: nat, x: real)
    requires n < WRAP && 2 <= divisor < WRAP && divisor as real * x == n as real
    ensures var c := Divided(n, divisor);
      && 0 <= c.tenths <= 9 && 0 <= c.rounding <= 3 && c.amt < WRAP - 1
      && (Describes(c.amt, c.tenths, c.rounding, x) <==> Fits(n, divisor))
  {
    hide Describes, Fits, SetupRounding;
    SetupIsExactIfItFits(n, divisor, x);
    DividedInRange(n, divisor);
  }

  lemma DividedInRange(n: nat, divisor: nat)
    requires n < WRAP && 2 <= divisor < WRAP
    ensures var c := Divided(n, divisor); 0 <= c.tenths <= 9 && 0 <= c.rounding <= 3 && c.amt < WRAP - 1
  {
    hide SetupRounding;
    SetupInRange(n, divisor);
    Halved(n, divisor);
  }

  /** The multiplication at the start of human_readable, which notices a wrap-around. */
  method Multiply(n: nat, multiplier: nat) returns (ok: bool, amt: nat)
    requires n < WRAP && 0 < multiplier < WRAP
    ensures ok == (n * multiplier < WRAP) && amt < WRAP && (ok ==> amt == n * multiplier)
  {
    amt := n * multiplier % WRAP;
    OverflowTest(n, multiplier);
    ok := amt / multiplier == n;
  }

  lemma MultiplicationIsExact(n: nat, fromSize: nat, toSize: nat, ok: bool, amt: nat)
    requires 0 < toSize <= fromSize && fromSize % toSize == 0
    requires ok == (n * (fromSize / toSize) < WRAP) && (ok ==> amt == n * (fromSize / toSize))
    ensures ok == IntegerPath(n, fromSize, toSize) && DivisionFits(n, fromSize, toSize)
    ensures ok ==> Describes(amt, 0, 0, Exact(n, fromSize, toSize))
  {
    hide Describes, Exact;
    Multiplier(fromSize, toSize);
    MultiplyDescribes(n, fromSize, toSize, fromSize / toSize);
  }

  lemma DivisionIsExact(n: nat, fromSize: nat, toSize: nat)
    requires n < WRAP && 0 < fromSize < toSize < WRAP && toSize % fromSize == 0 && toSize / fromSize > 0
    ensures var c := Divided(n, toSize / fromSize);
      && 0 <= c.tenths <= 9 && 0 <= c.rounding <= 3 && c.amt < WRAP - 1
      && (Describes(c.amt, c.tenths, c.rounding, Exact(n, fromSize, toSize)) <==> DivisionFits(n, fromSize, toSize))
  {
    hide Describes, Exact, Divided, Fits;
    Quotient(toSize, fromSize);
    ExactQuotient(n, fromSize, toSize, toSize / fromSize);
    DividedDescribes(n, toSize / fromSize, Exact(n, fromSize, toSize));
  }

  /** The multiplication or division at the start of human_readable, in the arithmetic of uintmax_t. What it leaves
      describes the exact quotient just when the division fits. */
  method Convert(n: nat, fromSize: nat, toSize: nat) returns (ok: bool, amt: nat, tenths: int, rounding: int)
    requires n < WRAP && fromSize < WRAP && 0 < toSize < WRAP
    ensures ok == IntegerPath(n, fromSize, toSize)
    ensures 0 <= tenths <= 9 && 0 <= rounding <= 3
    ensures amt < WRAP - 1 || (amt == WRAP - 1 && tenths == 0 && rounding == 0)
    ensures ok ==>
      (Describes(amt, tenths, rounding, Exact(n, fromSize, toSize)) <==> DivisionFits(n, fromSize, toSize))
  {
    hide Describes, Exact, Divided, DivisionFits;
    ok, amt, tenths, rounding := false, 0, 0, 0;
    if toSize <= fromSize {
      if fromSize % toSize == 0 {
        Multiplier(fromSize, toSize);
        ok, amt := Multiply(n, fromSize / toSize);
        MultiplicationIsExact(n, fromSize, toSize, ok, amt);
      }
    } else if fromSize != 0 && toSize % fromSize == 0 {
      Quotient(toSize, fromSize);
      amt, tenths, rounding := Divide(n, toSize / fromSize);
      DivisionIsExact(n, fromSize, toSize);
      ok := true;
    }
  }

  // ---------------------------------------------------------------- autoscaling

  lemma ScaledValue(base: nat, exponent: nat, v: real, w: real)
    requires base > 0 && v == Factor(base, exponent) * w
    ensures v == Factor(base, exponent + 1) * (w / base as real) && w == base as real * (w / base as real)
  {
    FactorStep(base, exponent);
    var b, f, u := base as real, Factor(base, exponent), w / base as real;
    assert w == b * u;
    assert f * (b * u) == (b * f) * u;
  }

  lemma QuotientIsSmaller(amt: nat, base: nat)
    requires 2 <= base <= amt
    ensures 1 <= amt / base < amt
  {
    DivMod(amt, base);
    if amt / base < 1 {
      MulLe(base, amt / base, 0);
    }
    MulLe(amt / base, 2, base);
  }

  /** What one turn of the autoscale loop leaves. */
  predicate Stepped(base: nat, amt0: nat, tenths0: int, rounding0: int, amt: nat, tenths: int, rounding: int)
    requires base > 0
  {
    && amt == amt0 / base
    && var r10 := (amt0 % base) * 10 + tenths0;
      tenths == r10 / base && rounding == NextRounding(base, (r10 % base) * 2 + rounding0 / 2, rounding0)
  }

  method ScaleOnce(base: nat, amt0: nat, tenths0: int, rounding0: int) returns (amt: nat, tenths: int, rounding: int)
    requires base > 0
    ensures Stepped(base, amt0, tenths0, rounding0, amt, tenths, rounding)
  {
    var r10 := (amt0 % base) * 10 + tenths0;
    var r2 := (r10 % base) * 2 + rounding0 / 2;
    amt := amt0 / base;
    tenths := r10 / base;
    rounding := if r2 < base then (if r2 + rounding0 != 0 then 1 else 0)
      else 2 + (if base < r2 + rounding0 then 1 else 0);
  }

  lemma SteppedDescribes(
    base: nat, amt0: nat, tenths0: int, rounding0: int, amt: nat, tenths: int, rounding: int, w: real, u: real)
    requires 2 <= base <= amt0 && base % 2 == 0 && Describes(amt0, tenths0, rounding0, w) && w == base as real * u
    requires Stepped(base, amt0, tenths0, rounding0, amt, tenths, rounding)
    ensures Describes(amt, tenths, rounding, u) && 1 <= amt < amt0
  {
    hide Describes, NextRounding;
    ScaleStep(base, amt0, tenths0, rounding0, w, u);
    QuotientIsSmaller(amt0, base);
  }

  /** The autoscale loop: it divides by the base, exactly, until the number is small enough. */
  method Scale(base: nat, amt0: nat, tenths0: int, rounding0: int, ghost v: real)
      returns (amt: nat, tenths: int, rounding: int, exponent: nat, ghost w: real)
    requires base >= 1000 && base % 2 == 0 && amt0 < WRAP && Describes(amt0, tenths0, rounding0, v)
    ensures Describes(amt, tenths, rounding, w) && v == Factor(base, exponent) * w
    ensures exponent < EXPONENT_MAX && amt <= amt0 && amt < base
    ensures exponent > 0 ==> 1 <= amt < amt0 && v >= Factor(base, exponent)
    ensures exponent == 0 ==> amt == amt0 && tenths == tenths0 && rounding == rounding0
  {
    hide Describes, Factor, Stepped, IsScaled, Below;
    amt, tenths, rounding, exponent, w := amt0, tenths0, rounding0, 0, v;
    NotYetScaled(base, v);
    BelowStart(amt0, base);
    while base <= amt && exponent < EXPONENT_MAX
      invariant Describes(amt, tenths, rounding, w) && IsScaled(base, exponent, v, w)
      invariant exponent <= EXPONENT_MAX && amt <= amt0 && Below(amt, base, exponent, amt0)
      invariant exponent > 0 ==> 1 <= amt < amt0
      invariant exponent == 0 ==> amt == amt0 && tenths == tenths0 && rounding == rounding0
    {
      ghost var u := ScaleValue(base, exponent, v, w);
      var amt1, tenths1, rounding1 := ScaleOnce(base, amt, tenths, rounding);
      SteppedDescribes(base, amt, tenths, rounding, amt1, tenths1, rounding1, w, u);
      BelowStep(amt, base, exponent, amt0, amt1);
      amt, tenths, rounding, exponent, w := amt1, tenths1, rounding1, exponent + 1, u;
    }
    ScaledMeans(base, exponent, v, w);
    CapIsNotReached(amt, base, exponent, amt0);
    AtLeastOne(base, exponent, v, w, amt, tenths, rounding);
  }

  /** The divisions never leave more than the number they started from. */
  predicate Below(amt: nat, base: nat, exponent: nat, amt0: nat) {
    amt * Pow(base, exponent) <= amt0
  }

  lemma BelowStart(amt0: nat, base: nat)
    ensures Below(amt0, base, 0, amt0)
  {
  }

  lemma BelowStep(amt: nat, base: nat, exponent: nat, amt0: nat, amt1: nat)
    requires base > 0 && Below(amt, base, exponent, amt0) && amt1 == amt / base
    ensures Below(amt1, base, exponent + 1, amt0)
  {
    DivMod(amt, base);
    var p := Pow(base, exponent);
    assert base * amt1 <= amt;
    MulLe(p, base * amt1, amt);
    PowStep(base, exponent + 1);
    assert amt1 * (base * p) == p * (base * amt1);
  }

  /** 1000^8 is beyond uintmax_t, so it is never the greatest power letter that stops the loop. */
  lemma CapIsNotReached(amt: nat, base: nat, exponent: nat, amt0: nat)
    requires base >= 1000 && amt0 < WRAP && Below(amt, base, exponent, amt0) && (exponent > 0 ==> amt >= 1)
    ensures exponent < EXPONENT_MAX
  {
    if exponent >= 8 {
      PowMonotoneBase(1000, base, exponent);
      PowMonotoneExponent(1000, 8, exponent);
      ThousandTo8();
      MulLe(Pow(base, exponent), 1, amt);
    }
  }

  lemma ThousandTo8()
    ensures Pow(1000, 8) > WRAP
  {
    assert Pow(1000, 2) == 1_000_000;
    hide Pow;
    PowAdd(1000, 2, 2);
    PowAdd(1000, 4, 4);
  }

  lemma AtLeastOne(base: nat, exponent: nat, v: real, w: real, amt: nat, tenths: int, rounding: int)
    requires base > 0 && v == Factor(base, exponent) * w && Describes(amt, tenths, rounding, w)
    ensures amt >= 1 ==> v >= Factor(base, exponent)
  {
    if amt >= 1 {
      assert w >= 1.0;
      FactorIsPositive(base, exponent);
      MulOrder(Factor(base, exponent), w, 1.0);
    }
  }

  /** The value v is w units of base^exponent. */
  ghost predicate IsScaled(base: nat, exponent: nat, v: real, w: real) {
    v == Factor(base, exponent) * w
  }

  lemma NotYetScaled(base: nat, v: real)
    ensures IsScaled(base, 0, v, v)
  {
  }

  lemma ScaledMeans(base: nat, exponent: nat, v: real, w: real)
    requires IsScaled(base, exponent, v, w)
    ensures v == Factor(base, exponent) * w
  {
  }

  lemma ScaleValue(base: nat, exponent: nat, v: real, w: real) returns (u: real)
    requires base > 0 && IsScaled(base, exponent, v, w)
    ensures IsScaled(base, exponent + 1, v, u) && w == base as real * u
  {
    u := w / base as real;
    ScaledValue(base, exponent, v, w);
  }

  // ---------------------------------------------------------------- rounding to what is printed

  /** Rounding of a scaled number below ten to tenths, with the carry of ten tenths. */
  method RoundTenths(style: Style, amt0: nat, tenths0: int, rounding0: int, ghost w: real)
      returns (amt: nat, tenths: int, rounding: int)
    requires Describes(amt0, tenths0, rounding0, w)
    ensures 0 <= tenths <= 9 && amt0 <= amt <= amt0 + 1 && (amt > amt0 ==> tenths == 0)
    ensures Rounds(style, w, (10 * amt + tenths) as real / 10.0, 0.1, 10 * amt + tenths)
    ensures tenths == 0 ==> !WholeUp(style, amt, tenths, rounding)
  {
    amt, tenths, rounding := amt0, tenths0, rounding0;
    TenthsRound(style, amt, tenths, rounding, w);
    if if style == Nearest then 2 < rounding + tenths % 2 else style == Ceiling && 0 < rounding {
      tenths, rounding := tenths + 1, 0;
      if tenths == 10 {
        amt, tenths := amt + 1, 0;
      }
    }
  }

  lemma PrintsScaled(num: Number, style: Style, base: nat, v: real, w: real)
    requires base > 0 && v == Factor(base, num.exponent) * w
    requires Rounds(style, w, Shown(num), Unit(num), Steps(num))
    ensures Prints(num, style, base, v)
  {
    hide Rounds, Factor, Steps, Unit, Shown;
    FactorIsPositive(base, num.exponent);
    var f := Factor(base, num.exponent);
    RoundsScaled(style, w, Shown(num), Unit(num), Steps(num), f, v, Printed(num, base), PrintedUnit(num, base));
  }

  lemma TenthsPrint(style: Style, base: nat, v: real, w: real, amt: nat, tenth: nat, exponent: int)
    requires base > 0 && v == Factor(base, exponent) * w
    requires Rounds(style, w, (10 * amt + tenth) as real / 10.0, 0.1, 10 * amt + tenth)
    ensures Prints(Number(amt, true, tenth, exponent), style, base, v)
  {
    hide Factor, Prints, Rounds;
    PrintsScaled(Number(amt, true, tenth, exponent), style, base, v, w);
  }

  lemma WholePrints(style: Style, base: nat, v: real, w: real, amt: nat, exponent: int)
    requires base > 0 && v == Factor(base, exponent) * w && Rounds(style, w, amt as real, 1.0, amt)
    ensures Prints(Number(amt, false, 0, exponent), style, base, v)
  {
    hide Factor, Prints, Rounds;
    PrintsScaled(Number(amt, false, 0, exponent), style, base, v, w);
  }

  /** Rounding to a whole number, with the carry of a whole base into the next exponent. */
  method RoundWhole(style: Style, base: nat, autoscale: bool, suppressZero: bool,
                    amt0: nat, tenths: int, rounding: int, exponent0: int, ghost v: real, ghost w: real)
      returns (num: Number)
    requires base == 1000 || base == 1024
    requires v == Factor(base, exponent0) * w && Describes(amt0, tenths, rounding, w)
    requires (exponent0 == -1 <==> !autoscale) && -1 <= exponent0 < EXPONENT_MAX
    requires autoscale ==> amt0 < base
    requires exponent0 > 0 ==> amt0 >= 10 && v >= Factor(base, exponent0)
    ensures Prints(num, style, base, v) && Normal(num, base, autoscale, suppressZero) && Least(num, style, base, v)
    ensures num.amt <= amt0 || (num.amt == amt0 + 1 && tenths + rounding > 0)
  {
    hide Factor, Prints, Rounds, Least;
    var amt, exponent := amt0, exponent0;
    WholeRounds(style, amt0, tenths, rounding, w);
    if if style == Nearest then 5 < tenths + (if 0 < rounding + amt % 2 then 1 else 0)
       else style == Ceiling && 0 < tenths + rounding {
      amt := amt + 1;
      if autoscale && amt == base && exponent < EXPONENT_MAX {
        exponent := exponent + 1;
        num := Number(1, !suppressZero, 0, exponent);
        CarriedNumber(style, base, v, w, exponent0, num);
        return;
      }
    }
    num := Number(amt, false, 0, exponent);
    WholeNumber(style, base, v, w, amt, exponent);
  }

  /** The base as a whole number is carried into the next exponent. */
  lemma CarriedNumber(style: Style, base: nat, v: real, w: real, exponent: nat, num: Number)
    requires (base == 1000 || base == 1024) && v == Factor(base, exponent) * w
    requires Rounds(style, w, base as real, 1.0, base)
    requires num == Number(1, num.point, 0, exponent + 1)
    ensures Prints(num, style, base, v) && Least(num, style, base, v)
  {
    hide Factor, Prints, Rounds, WholeAt;
    WholeIs(style, base, v, w, exponent, base);
    CarryNeedsExponent(style, base, v, exponent);
    ScaledValue(base, exponent, v, w);
    CarryRounds(style, base, w, w / base as real, Unit(num));
    PrintsScaled(num, style, base, v, w / base as real);
  }

  lemma WholeNumber(style: Style, base: nat, v: real, w: real, amt: nat, exponent: int)
    requires base > 0 && v == Factor(base, exponent) * w && Rounds(style, w, amt as real, 1.0, amt)
    requires exponent > 0 ==> v >= Factor(base, exponent)
    ensures var num := Number(amt, false, 0, exponent); Prints(num, style, base, v) && Least(num, style, base, v)
  {
    hide Factor, Prints, Rounds, WholeAt;
    WholePrints(style, base, v, w, amt, exponent);
    if exponent > 0 {
      LargeNeedsExponent(style, base, v, exponent - 1);
    }
  }

  lemma WholeIs(style: Style, base: nat, v: real, w: real, exponent: int, k: int)
    requires base > 0 && v == Factor(base, exponent) * w && Rounds(style, w, k as real, 1.0, k)
    ensures WholeAt(style, base, v, exponent, k)
  {
    hide Rounds, Factor;
    var f := Factor(base, exponent);
    FactorIsPositive(base, exponent);
    RoundsScaled(style, w, k as real, 1.0, k, f, v, Multiple(k, f), f);
  }

  /** The integer path from the conversion to the number printed. */
  method ToNumber(style: Style, base: nat, autoscale: bool, suppressZero: bool,
                  amt0: nat, tenths0: int, rounding0: int, ghost v: real) returns (num: Number)
    requires (base == 1000 || base == 1024) && amt0 < WRAP && Describes(amt0, tenths0, rounding0, v)
    ensures Prints(num, style, base, v) && Normal(num, base, autoscale, suppressZero) && Least(num, style, base, v)
    ensures num.amt <= amt0 || (num.amt == amt0 + 1 && tenths0 + rounding0 > 0)
  {
    hide Prints, Rounds, Describes, Factor, WholeAt;
    if !autoscale {
      NoFactor(base, v);
      num := RoundWhole(style, base, autoscale, suppressZero, amt0, tenths0, rounding0, -1, v, v);
    } else {
      var amt, tenths, rounding, exponent, w := Scale(base, amt0, tenths0, rounding0, v);
      if exponent > 0 && amt < 10 {
        LargeNeedsExponent(style, base, v, exponent - 1);
        amt, tenths, rounding := RoundTenths(style, amt, tenths, rounding, w);
        if amt < 10 && (tenths != 0 || !suppressZero) {
          num := Number(amt, true, tenths, exponent);
          TenthsPrint(style, base, v, w, amt, tenths, exponent);
        } else {
          // The rounding to a whole number that follows leaves amt alone, by the last clause of RoundTenths.
          num := Number(amt, false, 0, exponent);
          NoTenthsLeft(style, w, amt);
          WholePrints(style, base, v, w, amt, exponent);
        }
      } else {
        num := RoundWhole(style, base, autoscale, suppressZero, amt, tenths, rounding, exponent, v, w);
      }
    }
  }

  lemma NoFactor(base: nat, v: real)
    ensures v == Factor(base, -1) * v && v == Factor(base, 0) * v
  {
  }

  // ---------------------------------------------------------------- the text

  /** The number a reader takes from a text: digits, or digits, a point and a digit. */
  function Read(s: string): real
    requires Readable(s)
  {
    if |s| > 2 && s[|s| - 2] == '.' then
      Value(s[..|s| - 2]) as real + Value([s[|s| - 1]]) as real / 10.0
    else
      Value(s) as real
  }

  predicate Readable(s: string) {
    if |s| > 2 && s[|s| - 2] == '.' then Digits(s[..|s| - 2]) && Digits([s[|s| - 1]]) else Digits(s)
  }

  /** The text shows the number that is rounded. */
  lemma OutputShowsNumber(num: Number)
    requires num.tenth < 10
    ensures Readable(Output(num)) && Read(Output(num)) == Shown(num)
  {
    DecimalRoundTrip(num.amt);
    DecimalRoundTrip(num.tenth);
    var s := Output(num);
    if num.point {
      assert s[..|s| - 2] == Decimal(num.amt) && [s[|s| - 1]] == Decimal(num.tenth);
    } else {
      assert s == Decimal(num.amt);
    }
  }

  /** LONGEST_HUMAN_READABLE, and where the suffix starts. */
  const LONGEST: nat := (2 * 8 * 8 * 146 / 485 + 1) * (16 + 1) - 16 + 1 + 3
  const SUFFIX_START: nat := LONGEST - 1 - 3

  /** The buffer holds every number of up to twice 64 bits with a separator of 16 bytes between any two digits, a space
      and a suffix of three characters. */
  lemma LongestSuffices(n: nat)
    requires n < WRAP * WRAP
    ensures |Decimal(n)| + 16 * (|Decimal(n)| - 1) + 1 + 3 <= LONGEST
  {
    assert Anytostr.BitsBound(128) == 39;
    hide Pow, Decimal, Anytostr.BitsBound;
    TwoTo128();
    Anytostr.BitsBoundSuffices(128);
    DecimalLength(n, 39);
  }

  lemma TwoTo128()
    ensures Pow(2, 128) == WRAP * WRAP
  {
    Anytostr.SmallPowers();
    hide Pow;
    PowAdd(2, 8, 8);
    PowAdd(2, 16, 16);
    PowAdd(2, 32, 32);
    PowAdd(2, 64, 64);
  }

  /** Any number, which describes what the conversion left when the division did not fit. */
  lemma SomethingIsDescribed(amt: nat, tenths: int, rounding: int)
    requires 0 <= tenths <= 9 && 0 <= rounding <= 3
    ensures Describes(amt, tenths, rounding, (40 * amt + 4 * tenths + rounding) as real / 40.0)
  {
  }

  lemma OutputFits(num: Number)
    requires num.amt < WRAP
    ensures |Decimal(num.amt)| <= 20
  {
    TwentyDigits();
    DecimalLength(num.amt, 20);
  }

  lemma TwentyDigits()
    ensures WRAP <= Pow(10, 20)
  {
    hide Pow;
    Anytostr.SmallPowers();
    PowAdd(10, 8, 8);
    PowAdd(10, 2, 2);
    PowAdd(10, 16, 4);
  }

  /** src/gnu/human.c human_readable, without digit grouping and unit suffix: on the integer path it writes the rounded
      number in front of the place of the suffix. When ok is false, the source falls back on floating point. */
  method HumanReadable(n: nat, buf: array<char>, style: Style, base: nat, autoscale: bool, suppressZero: bool,
                       fromSize: nat, toSize: nat) returns (ok: bool, p: nat, num: Number)
    requires n < WRAP && fromSize < WRAP && 0 < toSize < WRAP && (base == 1000 || base == 1024)
    requires buf.Length >= LONGEST + 1
    modifies buf
    ensures ok == IntegerPath(n, fromSize, toSize)
    ensures ok ==> p <= SUFFIX_START && buf[p..SUFFIX_START] == Output(num) && buf[SUFFIX_START] == '\0'
    ensures ok ==> (num.exponent >= 0 <==> autoscale) && (autoscale ==> num.amt < base) && num.tenth < 10
    ensures ok ==> (num.point <==> num.exponent > 0 && num.amt < 10 && (num.tenth != 0 || !suppressZero))
    ensures ok && DivisionFits(n, fromSize, toSize) ==>
      Prints(num, style, base, Exact(n, fromSize, toSize)) && Least(num, style, base, Exact(n, fromSize, toSize))
  {
    hide Prints, Describes, Fits, Exact, Least;
    p, num := 0, Number(0, false, 0, -1);
    var amt, tenths, rounding;
    ok, amt, tenths, rounding := Convert(n, fromSize, toSize);
    if ok {
      ghost var v := if DivisionFits(n, fromSize, toSize) then Exact(n, fromSize, toSize)
        else (40 * amt + 4 * tenths + rounding) as real / 40.0;
      SomethingIsDescribed(amt, tenths, rounding);
      num := ToNumber(style, base, autoscale, suppressZero, amt, tenths, rounding, v);
      assert num.amt < WRAP;
      p := Write(num, buf);
    }
  }

  lemma SplitAt(buf: array<char>, p: nat, start: nat, end: nat)
    requires p <= start <= end < buf.Length
    ensures buf[p..end] == buf[p..start] + buf[start..][..end - start] && buf[end] == buf[start..][end - start]
  {
  }

  /** Writes the number backwards from the place of the suffix. */
  method Write(num: Number, buf: array<char>) returns (p: nat)
    requires num.amt < WRAP && num.tenth < 10 && buf.Length >= LONGEST + 1
    modifies buf
    ensures p <= SUFFIX_START && buf[p..SUFFIX_START] == Output(num) && buf[SUFFIX_START] == '\0'
  {
    OutputFits(num);
    buf[SUFFIX_START] := '\0';
    p := SUFFIX_START;
    if num.point {
      buf[p - 1] := Digit(num.tenth);
      buf[p - 2] := '.';
      p := p - 2;
    }
    var start := p;
    SplitAt(buf, start, start, SUFFIX_START);
    p := Anytostr.WriteDigits(num.amt, buf, start);
    SplitAt(buf, p, start, SUFFIX_START);
  }
}
