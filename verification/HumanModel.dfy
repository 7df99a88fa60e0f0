/** The exact-rounding code of src/gnu/human.c: a whole number, a digit of tenths and a four-valued rounding code that
    together say where an exact value lies. */
module HumanModel {
  import opened Products

  /** One more than the largest uintmax_t. */
  const WRAP: nat := 0x1_0000_0000_0000_0000

  /** Where x lies: 0 at amt.tenths, 1 above it but below the middle to the next tenth, 2 at the middle, 3 above it. */
  ghost predicate Describes(amt: int, tenths: int, rounding: int, x: real) {
    && 0 <= tenths <= 9
    && Locates(20 * amt + 2 * tenths, rounding, 20.0 * x)
  }

  /** The rounding code of y, which is at least `low` and less than low + 2. */
  ghost predicate Locates(low: int, rounding: int, y: real) {
    var l := low as real;
    || (rounding == 0 && y == l)
    || (rounding == 1 && l < y < l + 1.0)
    || (rounding == 2 && y == l + 1.0)
    || (rounding == 3 && l + 1.0 < y < l + 2.0)
  }

  /** A value has one description only. */
  lemma DescriptionIsUnique(a: int, t: int, r: int, a': int, t': int, r': int, x: real)
    requires Describes(a, t, r, x) && Describes(a', t', r', x)
    ensures a == a' && t == t' && r == r'
  {
    var low, low' := 20 * a + 2 * t, 20 * a' + 2 * t';
    assert low == low';
  }

  /** The order of products that are known by name. */
  lemma OrderOfProducts(b: real, u: real, v: real, bu: real, bv: real)
    requires b > 0.0 && bu == b * u && bv == b * v
    ensures (u < v <==> bu < bv) && (u == v <==> bu == bv)
  {
    MulOrder(b, u, v);
  }

  lemma Distribute(r: real, l: real)
    ensures r * (l + 1.0) == r * l + r && r * (l + 2.0) == r * l + 2.0 * r
  {
  }

  /** To locate y it is enough to locate b * y among multiples of b. */
  lemma LocateScaled(b: int, low: int, rounding: int, y: real, z: real)
    requires b > 0 && z == b as real * y
    requires var l := b as real * low as real;
      || (rounding == 0 && z == l)
      || (rounding == 1 && l < z < l + b as real)
      || (rounding == 2 && z == l + b as real)
      || (rounding == 3 && l + b as real < z < l + 2.0 * b as real)
    ensures Locates(low, rounding, y)
  {
    var r, l := b as real, low as real;
    var p := r * l;
    Distribute(r, l);
    OrderOfProducts(r, l, y, p, z);
    OrderOfProducts(r, y, l + 1.0, z, p + r);
    OrderOfProducts(r, l + 1.0, y, p + r, z);
    OrderOfProducts(r, y, l + 2.0, z, p + 2.0 * r);
  }

  // ---------------------------------------------------------------- dividing by the base

  /** The rounding code after a division by the base, from r2, which counts the half-tenths left over. */
  function NextRounding(base: int, r2: int, rounding: int): int {
    if r2 < base then (if r2 + rounding != 0 then 1 else 0)
    else 2 + (if base < r2 + rounding then 1 else 0)
  }

  lemma ProductsAsReals(b: int, a: int, t: int)
    ensures b as real * (20 * a + 2 * t) as real == (20 * (b * a) + 2 * (b * t)) as real
  {
    assert b as real * (20 * a + 2 * t) as real == (b * (20 * a + 2 * t)) as real;
    assert b * (20 * a + 2 * t) == 20 * (b * a) + 2 * (b * t);
  }

  /** One step of the autoscale loop keeps the description exact, because the base is even. */
  lemma ScaleStep(base: int, amt: nat, tenths: int, rounding: int, x: real, y: real)
    requires base >= 2 && base % 2 == 0 && Describes(amt, tenths, rounding, x) && x == base as real * y
    ensures var r10 := (amt % base) * 10 + tenths;
      var r2 := (r10 % base) * 2 + rounding / 2;
      Describes(amt / base, r10 / base, NextRounding(base, r2, rounding), y)
  {
    hide Describes, NextRounding;
    DivMod(amt, base);
    var r10 := (amt % base) * 10 + tenths;
    TenthsInRange(amt, tenths, rounding, x);
    DivMod(r10, base);
    ScaleStepFrom(base, amt, amt / base, amt % base, r10 / base, r10 % base, tenths, rounding, x, y);
  }

  lemma DivMod(n: nat, d: int)
    requires d > 0
    ensures n == d * (n / d) + n % d && 0 <= n % d < d
  {
  }

  lemma TenthsInRange(amt: int, tenths: int, rounding: int, x: real)
    requires Describes(amt, tenths, rounding, x)
    ensures 0 <= tenths <= 9 && 0 <= rounding <= 3
  {
  }

  lemma ScaleStepFrom(
    base: int, amt: int, q: int, a: int, t: int, u: int, tenths: int, rounding: int, x: real, y: real)
    requires base >= 2 && base % 2 == 0 && Describes(amt, tenths, rounding, x) && x == base as real * y
    requires amt == base * q + a && 0 <= a < base && a * 10 + tenths == base * t + u && 0 <= u < base
    ensures Describes(q, t, NextRounding(base, u * 2 + rounding / 2, rounding), y)
  {
    hide Locates, NextRounding;
    TenthsInRange(amt, tenths, rounding, x);
    TwentyTimes(base as real, y, x);
    ScaleParts(base, q, a, t, u, tenths, base * q, base * t);
    StepLocates(base, base * q, a, tenths, base * t, u, rounding, 20 * q + 2 * t, x, y);
  }

  lemma ScaleParts(base: int, q: int, a: int, t: int, u: int, tenths: int, bq: int, bt: int)
    requires bq == base * q && bt == base * t && 0 <= a < base && 0 <= tenths <= 9
    requires a * 10 + tenths == bt + u && 0 <= u < base
    ensures 0 <= t <= 9 && base as real * (20 * q + 2 * t) as real == (20 * bq + 2 * bt) as real
  {
    ProductsAsReals(base, q, t);
    QuotientInRange(base, t, u);
  }

  lemma QuotientInRange(base: int, t: int, u: int)
    requires base > 0 && 0 <= u < base && 0 <= base * t + u < 10 * base
    ensures 0 <= t <= 9
  {
    if t < 0 {
      MulLe(base, t, -1);
    } else if t > 9 {
      MulLe(base, 10, t);
    }
  }

  lemma StepLocates(
    base: int, bq: int, a: int, tenths: int, bt: int, u: int, rounding: int, low: int, x: real, y: real)
    requires base >= 2 && base % 2 == 0 && 0 <= u < base && a * 10 + tenths == bt + u
    requires Describes(bq + a, tenths, rounding, x)
    requires base as real * low as real == (20 * bq + 2 * bt) as real
    requires 20.0 * x == base as real * (20.0 * y)
    ensures Locates(low, NextRounding(base, u * 2 + rounding / 2, rounding), 20.0 * y)
  {
    var z := 20.0 * x;
    assert 20 * (bq + a) + 2 * tenths == 20 * bq + 2 * bt + 2 * u;
    LocateScaled(base, low, NextRounding(base, u * 2 + rounding / 2, rounding), 20.0 * y, z);
  }

  /** An odd base would break it: 2.0 and a half-tenth, divided by 41, is exactly at a middle that the code takes to be
      above it. */
  lemma OddBaseWouldNotDo()
    ensures Describes(2, 0, 2, 2.05) && 2.05 == 41.0 * 0.05 && Describes(0, 0, 2, 0.05)
    ensures var r10 := (2 % 41) * 10 + 0; var r2 := (r10 % 41) * 2 + 2 / 2;
      !Describes(2 / 41, r10 / 41, NextRounding(41, r2, 2), 0.05)
  {
  }

  // ---------------------------------------------------------------- from one unit to the other

  /** The exact number of output units. */
  ghost function Exact(n: nat, fromSize: nat, toSize: nat): real
    requires toSize > 0
  {
    (n * fromSize) as real / toSize as real
  }

  lemma ExactTimes(n: nat, fromSize: nat, toSize: nat)
    requires toSize > 0
    ensures toSize as real * Exact(n, fromSize, toSize) == (n * fromSize) as real
  {
  }

  /** The test for overflow of the multiplication is exact. */
  lemma OverflowTest(n: nat, multiplier: nat)
    requires n < WRAP && 0 < multiplier < WRAP
    ensures (n * multiplier) % WRAP / multiplier == n <==> n * multiplier < WRAP
  {
    var full := n * multiplier;
    var amt, q := full % WRAP, full / WRAP;
    assert full == WRAP * q + amt;
    if full < WRAP {
      DivOfProduct(multiplier, n, amt);
    } else {
      assert amt <= full - WRAP;
      DivBelow(multiplier, n, amt);
    }
  }

  lemma DivOfProduct(m: nat, n: nat, p: nat)
    requires m > 0 && p == n * m
    ensures p / m == n
  {
    DivMod(p, m);
    var d := n - p / m;
    assert m * d == p % m;
    if d >= 1 {
      MulLe(m, 1, d);
    } else if d <= -1 {
      MulLe(m, d, -1);
    }
  }

  lemma DivBelow(m: nat, n: nat, p: nat)
    requires m > 0 && p < n * m - m
    ensures p / m < n
  {
    DivMod(p, m);
    if p / m >= n {
      MulLe(m, n, p / m);
    }
  }

  /** The multiplying set-up is exact. */
  lemma MultiplyDescribes(n: nat, fromSize: nat, toSize: nat, multiplier: nat)
    requires toSize > 0 && fromSize == toSize * multiplier
    ensures Describes(n * multiplier, 0, 0, Exact(n, fromSize, toSize))
  {
    var x, t := Exact(n, fromSize, toSize), toSize as real;
    ExactTimes(n, fromSize, toSize);
    assert n * fromSize == toSize * (n * multiplier);
    assert t * x == t * (n * multiplier) as real;
    MulOrder(t, x, (n * multiplier) as real);
  }

  /** No intermediate result of the dividing set-up passes the largest uintmax_t. */
  predicate Fits(n: nat, divisor: nat)
    requires divisor > 0
  {
    (n % divisor) * 10 < WRAP && ((n % divisor) * 10 % divisor) * 2 < WRAP
  }

  function SetupRounding(divisor: nat, r2: nat): int {
    if r2 < divisor then (if 0 < r2 then 1 else 0) else 2 + (if divisor < r2 then 1 else 0)
  }

  lemma TwentyTimes(d: real, x: real, n: real)
    requires d * x == n
    ensures 20.0 * n == d * (20.0 * x)
  {
  }

  lemma LocatesQuotient(divisor: nat, da: int, dt: int, u: int, low: int, y: real, z: real)
    requires divisor > 0 && 0 <= u < divisor && z == divisor as real * y
    requires divisor as real * low as real == (20 * da + 2 * dt) as real
    requires z == (20 * da + 2 * dt + 2 * u) as real
    ensures Locates(low, SetupRounding(divisor, u * 2), y)
  {
    LocateScaled(divisor, low, SetupRounding(divisor, u * 2), y, z);
  }

  /** Dividing n by the divisor, to tenths and a rounding code, is exact. */
  lemma DivideLocates(n: nat, divisor: nat, a: int, r: int, t: int, u: int, x: real)
    requires divisor > 0 && n == divisor * a + r && r * 10 == divisor * t + u && 0 <= u < divisor
    requires divisor as real * x == n as real
    ensures Locates(20 * a + 2 * t, SetupRounding(divisor, u * 2), 20.0 * x)
  {
    ProductsAsReals(divisor, a, t);
    TwentyTimes(divisor as real, x, n as real);
    LocatesQuotient(divisor, divisor * a, divisor * t, u, 20 * a + 2 * t, 20.0 * x, 20.0 * n as real);
  }

  lemma DivideDescribes(n: nat, divisor: nat, x: real)
    requires divisor > 0 && divisor as real * x == n as real
    ensures var r10 := (n % divisor) * 10;
      Describes(n / divisor, r10 / divisor, SetupRounding(divisor, (r10 % divisor) * 2), x)
  {
    hide SetupRounding, Locates;
    var r10 := (n % divisor) * 10;
    DivMod(n, divisor);
    DivMod(r10, divisor);
    QuotientInRange(divisor, r10 / divisor, r10 % divisor);
    DivideLocates(n, divisor, n / divisor, n % divisor, r10 / divisor, r10 % divisor, x);
  }

  lemma ExactQuotient(n: nat, fromSize: nat, toSize: nat, divisor: nat)
    requires fromSize > 0 && toSize == fromSize * divisor && toSize > 0
    ensures divisor as real * Exact(n, fromSize, toSize) == n as real
  {
    var x, f, d := Exact(n, fromSize, toSize), fromSize as real, divisor as real;
    ExactTimes(n, fromSize, toSize);
    assert toSize as real == f * d;
    assert f * (d * x) == f * n as real;
    MulOrder(f, d * x, n as real);
  }

  /** What the dividing set-up computes, with its multiplications wrapping around. */
  ghost predicate SetupDescribes(n: nat, divisor: nat, x: real)
    requires divisor > 0
  {
    var r10 := (n % divisor) * 10 % WRAP;
    var r2 := (r10 % divisor) * 2 % WRAP;
    Describes(n / divisor, r10 / divisor, SetupRounding(divisor, r2), x)
  }

  /** The dividing set-up is exact just when its intermediate results fit. */
  lemma SetupIsExactIfItFits(n: nat, divisor: nat, x: real)
    requires 0 < divisor < WRAP && n < WRAP && divisor as real * x == n as real
    ensures SetupDescribes(n, divisor, x) <==> Fits(n, divisor)
  {
    hide Describes, SetupRounding;
    var r10 := (n % divisor) * 10;
    var w := r10 % WRAP;
    DivideDescribes(n, divisor, x);
    DivMod(r10, divisor);
    if r10 >= WRAP {
      WrappedTenths(divisor, r10);
    }
    SetupCases(divisor, n / divisor, r10, r10 / divisor, r10 % divisor, w / divisor, w % divisor, x);
  }

  /** It does not fit, and so is not exact, for the largest number of bytes in units of 2^63 bytes. */
  lemma SetupCanWrap()
    ensures var n, d := 0xFFFF_FFFF_FFFF_FFFF, 0x8000_0000_0000_0000;
      !Fits(n, d) && !SetupDescribes(n, d, Exact(n, 1, d))
  {
    hide Exact;
    var n, d := 0xFFFF_FFFF_FFFF_FFFF, 0x8000_0000_0000_0000;
    ExactQuotient(n, 1, d, d);
    SetupIsExactIfItFits(n, d, Exact(n, 1, d));
  }

  lemma SetupCases(divisor: nat, a: int, r10: nat, t: int, u: nat, tw: int, uw: nat, x: real)
    requires 0 <= u < divisor < WRAP && Describes(a, t, SetupRounding(divisor, u * 2), x)
    requires if r10 < WRAP then tw == t && uw == u else tw != t
    ensures Describes(a, tw, SetupRounding(divisor, uw * 2 % WRAP), x) <==> r10 < WRAP && u * 2 < WRAP
  {
    hide Describes, SetupRounding;
    if Describes(a, tw, SetupRounding(divisor, uw * 2 % WRAP), x) {
      DescriptionIsUnique(a, t, SetupRounding(divisor, u * 2), a, tw, SetupRounding(divisor, uw * 2 % WRAP), x);
    }
    if u * 2 >= WRAP {
      WrappedRounding(divisor, u);
    }
  }

  lemma WrappedRounding(divisor: nat, u: nat)
    requires 0 <= u < divisor < WRAP && u * 2 >= WRAP
    ensures SetupRounding(divisor, u * 2) != SetupRounding(divisor, u * 2 % WRAP)
  {
    assert u * 2 % WRAP == u * 2 - WRAP;
  }

  lemma WrappedTenths(divisor: nat, r10: nat)
    requires 0 < divisor < WRAP && r10 >= WRAP
    ensures r10 % WRAP / divisor != r10 / divisor
  {
    var w, q := r10 % WRAP, r10 / WRAP;
    assert r10 == WRAP * q + w && q >= 1;
    DivMod(r10, divisor);
    DivMod(w, divisor);
    var k := r10 / divisor - w / divisor;
    assert divisor * k + (r10 % divisor - w % divisor) == r10 - w;
  }
}
