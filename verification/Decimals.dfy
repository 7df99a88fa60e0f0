/** Decimal notation, and powers: shared by the integer printers of src/gnu/anytostr.c and src/gnu/human.c. */
module Decimals {
  import opened Products

  function Pow(b: nat, e: nat): (r: nat)
    ensures b > 0 ==> r > 0
  {
    if e == 0 then 1 else b * Pow(b, e - 1)
  }

  lemma {:induction false} PowAdd(b: nat, m: nat, n: nat)
    ensures Pow(b, m + n) == Pow(b, m) * Pow(b, n)
  {
    if m > 0 {
      var x, y := Pow(b, m - 1), Pow(b, n);
      calc {
        Pow(b, m + n);
        { PowStep(b, m + n); }
        b * Pow(b, m - 1 + n);
        { PowAdd(b, m - 1, n); }
        b * (x * y);
        { MulAssociative(b, x, y); }
        (b * x) * y;
        { PowStep(b, m); }
        Pow(b, m) * y;
      }
    }
  }

  lemma PowStep(b: nat, e: nat)
    requires e > 0
    ensures Pow(b, e) == b * Pow(b, e - 1)
  {
  }

  lemma MulAssociative(a: nat, b: nat, c: nat)
    ensures a * (b * c) == (a * b) * c
  {
  }

  lemma {:induction false} PowMul(b: nat, m: nat, n: nat)
    ensures Pow(Pow(b, m), n) == Pow(b, m * n)
  {
    if n > 0 {
      PowMul(b, m, n - 1);
      PowAdd(b, m, m * (n - 1));
      assert m + m * (n - 1) == m * n;
      PowStep(Pow(b, m), n);
    }
  }

  lemma {:induction false} PowMonotoneBase(a: nat, b: nat, n: nat)
    requires a <= b
    ensures Pow(a, n) <= Pow(b, n)
  {
    if n > 0 {
      PowMonotoneBase(a, b, n - 1);
      MulMonotone(a, b, Pow(a, n - 1), Pow(b, n - 1));
    }
  }

  lemma {:induction false} PowStrictBase(a: nat, b: nat, n: nat)
    requires a < b && n > 0
    ensures Pow(a, n) < Pow(b, n)
  {
    PowMonotoneBase(a, b, n - 1);
    MulStrict(a, b, Pow(a, n - 1), Pow(b, n - 1));
  }

  lemma {:induction false} PowMonotoneExponent(b: nat, m: nat, n: nat)
    requires b > 0 && m <= n
    ensures Pow(b, m) <= Pow(b, n)
  {
    PowAdd(b, m, n - m);
    MulMonotone(Pow(b, m), Pow(b, m), 1, Pow(b, n - m));
  }

  // ---------------------------------------------------------------- decimal digits

  function Digit(d: nat): char
    requires d < 10
  {
    ('0' as int + d) as char
  }

  /** The decimal digits of n, without leading zeros. */
  function Decimal(n: nat): (s: string)
    ensures s != ""
  {
    if n < 10 then [Digit(n)] else Decimal(n / 10) + [Digit(n % 10)]
  }

  predicate Digits(s: string) {
    forall i :: 0 <= i < |s| ==> '0' <= s[i] <= '9'
  }

  /** The number a digit string denotes. */
  function Value(s: string): (n: nat)
    requires Digits(s)
  {
    if s == "" then 0 else 10 * Value(s[..|s| - 1]) + (s[|s| - 1] as int - '0' as int)
  }

  /** A digit string as people write it: not empty, and without leading zeros. */
  predicate Canonical(s: string) {
    Digits(s) && s != "" && (|s| > 1 ==> s[0] != '0')
  }

  lemma {:induction false} DecimalRoundTrip(n: nat)
    ensures Canonical(Decimal(n)) && Value(Decimal(n)) == n && (n > 0 ==> Decimal(n)[0] != '0')
  {
    if n >= 10 {
      DecimalRoundTrip(n / 10);
      var s := Decimal(n);
      assert s[..|s| - 1] == Decimal(n / 10);
    }
  }

  /** Decimal is the only canonical way to write a number. */
  lemma {:induction false} DecimalIsUnique(s: string)
    requires Canonical(s)
    ensures Decimal(Value(s)) == s
    decreases |s|
  {
    var init, last := s[..|s| - 1], s[|s| - 1] as int - '0' as int;
    if |s| == 1 {
      assert init == "";
    } else {
      DecimalIsUnique(init);
      assert init[0] == s[0];
      DecimalRoundTrip(0);
      assert Value(init) > 0;
      assert Value(s) / 10 == Value(init) && Value(s) % 10 == last;
    }
  }

  lemma {:induction false} DecimalLength(n: nat, k: nat)
    requires n < Pow(10, k) && k > 0
    ensures |Decimal(n)| <= k
  {
    if n >= 10 {
      DecimalLength(n / 10, k - 1);
    }
  }

  lemma {:induction false} DecimalReaches(n: nat, k: nat)
    requires n >= Pow(10, k)
    ensures |Decimal(n)| > k
  {
    if k > 0 {
      DecimalReaches(n / 10, k - 1);
    }
  }
}
