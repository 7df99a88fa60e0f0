/** Prime table sizes: the trial-division test and the search for the next prime of src/gnu/hash.c. */
module Primes {
  import opened Products

  /** The largest value of a 64-bit `size_t`; additions in `IsPrime` wrap around past it. */
  const SIZE_MAX: nat := 0xFFFF_FFFF_FFFF_FFFF
  const WRAP: nat := SIZE_MAX + 1

  /** The square of 2^32 - 1: up to this candidate the running square never wraps. */
  const EXACT_MAX: nat := 0xFFFF_FFFF * 0xFFFF_FFFF

  predicate Divides(d: nat, n: nat)
    requires d > 0
  {
    n % d == 0
  }

  ghost predicate Prime(n: nat) {
    n >= 2 && forall d: nat :: 2 <= d < n ==> !Divides(d, n)
  }

  lemma SmallMultiple(q: nat, k: int, r: int)
    requires q * k == r && 0 <= r < q
    ensures r == 0
  {
    if k >= 1 {
      MulLe(q, 1, k);
    }
  }

  lemma ModOfMultiple(q: nat, d: nat)
    requires q > 0
    ensures Divides(q, q * d)
  {
    var x := q * d;
    assert x == q * (x / q) + x % q;
    assert q * (d - x / q) == x % q;
    SmallMultiple(q, d - x / q, x % q);
  }

  /** A proper divisor has a cofactor, which divides as well. */
  lemma Cofactor(d: nat, n: nat) returns (q: nat)
    requires 2 <= d < n && Divides(d, n)
    ensures d * q == n && 2 <= q < n && Divides(q, n)
  {
    q := n / d;
    assert n == d * q;
    assert q != 0 && q != 1;
    MulLe(q, 2, d);
    ModOfMultiple(q, d);
    assert q * d == n;
  }

  /** Two factors cannot both pass the square root. */
  lemma OneFactorIsSmall(d: nat, q: nat, limit: nat)
    requires d > limit > 0 && d * q <= limit * limit
    ensures q < limit
  {
    if q >= limit {
      MulLe(d, limit, q);
      MulLt(limit, limit, d);
    }
  }

  /** Trial division may stop at the square root. */
  lemma TrialDivisionSuffices(n: nat, limit: nat)
    requires 2 <= limit && 2 <= n <= limit * limit
    requires forall d: nat :: 2 <= d < limit ==> !Divides(d, n)
    requires !Divides(limit, n)
    ensures Prime(n)
  {
    forall d: nat | limit < d < n
      ensures !Divides(d, n)
    {
      if Divides(d, n) {
        var q := Cofactor(d, n);
        OneFactorIsSmall(d, q, limit);
      }
    }
  }

  /** An odd number has no even divisor. */
  lemma EvenDivisors(d: nat, n: nat)
    requires d > 0 && d % 2 == 0 && n % 2 == 1
    ensures !Divides(d, n)
  {
    var q, h, m := n / d, d / 2, n % d;
    assert n == d * q + m && d == 2 * h;
    assert d * q == 2 * (h * q);
  }

  function Square(n: nat): nat { n * n }

  lemma SquareStep(divisor: nat)
    ensures Square(divisor + 2) == Square(divisor) + 4 * (divisor + 1)
  {
  }

  /** A divisor whose square is below the candidate is below the root, and so is the next odd one. */
  lemma RootBound(divisor: nat, candidate: nat)
    requires divisor % 2 == 1 && Square(divisor) < candidate <= EXACT_MAX
    ensures Square(divisor + 2) <= EXACT_MAX
  {
    if divisor >= 0xFFFF_FFFF {
      MulLe(divisor, 0xFFFF_FFFF, divisor);
    }
    MulLe(divisor + 2, divisor + 2, 0xFFFF_FFFF);
  }

  lemma SquareExceeds(x: nat)
    requires x >= 3
    ensures Square(x) >= 3 * x
  {
  }

  lemma WrapSum(a: nat, b: nat)
    ensures (a % WRAP + b) % WRAP == (a + b) % WRAP
  {
  }

  ghost predicate NoDivisorBelow(candidate: nat, limit: nat) {
    forall d: nat :: 2 <= d < limit ==> !Divides(d, candidate)
  }

  /** The running square, exact as long as it cannot have wrapped. */
  ghost predicate RunningSquare(candidate: nat, divisor: nat, square: nat) {
    square == Square(divisor) % WRAP && (candidate <= EXACT_MAX ==> Square(divisor) < WRAP && divisor < candidate)
  }

  /** The loop of `is_prime`. */
  ghost predicate Trial(candidate: nat, divisor: nat, square: nat) {
    && divisor % 2 == 1 && 3 <= divisor <= candidate
    && RunningSquare(candidate, divisor, square) && NoDivisorBelow(candidate, divisor)
  }

  lemma NextOddDivisor(candidate: nat, divisor: nat)
    requires candidate % 2 == 1 && divisor % 2 == 1 && 3 <= divisor <= candidate
    requires NoDivisorBelow(candidate, divisor) && !Divides(divisor, candidate)
    ensures NoDivisorBelow(candidate, divisor + 2) && divisor + 2 <= candidate
  {
    hide Divides;
    EvenDivisors(divisor + 1, candidate);
    ModOfMultiple(candidate, 1);
    assert candidate * 1 == candidate;
  }

  lemma NextSquare(candidate: nat, divisor: nat, square: nat)
    requires RunningSquare(candidate, divisor, square) && divisor % 2 == 1 && divisor >= 3 && square < candidate
    ensures RunningSquare(candidate, divisor + 2, (square + 4 * (divisor + 1)) % WRAP)
  {
    hide Square;
    SquareStep(divisor);
    WrapSum(Square(divisor), 4 * (divisor + 1));
    SquareExceeds(divisor);
    if candidate <= EXACT_MAX {
      RootBound(divisor, candidate);
    }
  }

  lemma RunningStart(candidate: nat)
    requires candidate >= 11
    ensures RunningSquare(candidate, 3, 9)
  {
  }

  lemma TrialEnds(candidate: nat, divisor: nat, square: nat)
    requires candidate <= SIZE_MAX
    ensures Trial(candidate, divisor, square) && square >= candidate && !Divides(divisor, candidate) ==>
      Prime(candidate)
  {
    if Trial(candidate, divisor, square) && square >= candidate && !Divides(divisor, candidate) {
      assert Square(divisor) >= candidate by {
        hide Square;
      }
      TrialDivisionSuffices(candidate, divisor);
    }
  }

  /** A square root of -7 modulo 2^64. Its wrapped square is the largest one that an odd number has, so it stops the
      loop for every larger candidate but the last three, which are not prime. */
  const ROOT: nat := 0x19B4_BB63_9C98_C0B5

  lemma RootOfMinusSeven()
    ensures Square(ROOT) % WRAP == WRAP - 7 && ROOT % 2 == 1 && 3 < ROOT < EXACT_MAX < WRAP - 7
  {
  }

  lemma LastThreeAreNotPrime(n: nat)
    requires WRAP - 7 < n < WRAP && n % 2 == 1
    ensures !Prime(n)
  {
    assert Divides(3, WRAP - 1) && Divides(13, WRAP - 3) && Divides(11, WRAP - 5);
  }

  /** How far the loop gets when the square may wrap. */
  ghost predicate InReach(candidate: nat, divisor: nat) {
    EXACT_MAX < candidate <= WRAP - 7 ==> divisor <= ROOT
  }

  /** The loop does not pass the root. */
  lemma StaysInReach(candidate: nat, divisor: nat, square: nat)
    requires RunningSquare(candidate, divisor, square) && InReach(candidate, divisor)
    requires divisor % 2 == 1 && square < candidate
    ensures InReach(candidate, divisor + 2)
  {
    hide Square;
    RootOfMinusSeven();
  }

  /** A divisor that stops the loop is a proper one, or the candidate is not prime anyway. */
  lemma StoppedByDivisor(candidate: nat, divisor: nat, square: nat)
    requires candidate <= SIZE_MAX && candidate % 2 == 1
    ensures Trial(candidate, divisor, square) && InReach(candidate, divisor) && Divides(divisor, candidate) ==>
      !Prime(candidate)
  {
    hide Square, Divides;
    RootOfMinusSeven();
    if candidate > WRAP - 7 {
      LastThreeAreNotPrime(candidate);
    }
  }

  /** src/gnu/hash.c `is_prime`: the answer is right for every candidate, although the square may wrap around. */
  method IsPrime(candidate: nat) returns (r: bool)
    requires 11 <= candidate <= SIZE_MAX && candidate % 2 == 1
    ensures r <==> Prime(candidate)
  {
    hide Divides, Square, Prime;
    RunningStart(candidate);
    RootOfMinusSeven();
    var divisor := 3;
    var square: nat := divisor * divisor;
    EvenDivisors(2, candidate);
    while square < candidate && !Divides(divisor, candidate)
      invariant Trial(candidate, divisor, square) && InReach(candidate, divisor)
      decreases candidate - divisor
    {
      NextOddDivisor(candidate, divisor);
      NextSquare(candidate, divisor, square);
      StaysInReach(candidate, divisor, square);
      divisor := divisor + 1;
      square := (square + 4 * divisor) % WRAP;
      divisor := divisor + 1;
    }
    r := !Divides(divisor, candidate);
    TrialEnds(candidate, divisor, square);
    StoppedByDivisor(candidate, divisor, square);
  }

  lemma EvenIsNotPrime(n: nat)
    requires n > 2 && n % 2 == 0
    ensures !Prime(n)
  {
    assert Divides(2, n);
  }

  /** src/gnu/hash.c `next_prime`: the least prime from 11 and the start on, or `SIZE_MAX`, which is not prime, when
      there is none. */
  method NextPrime(start: nat) returns (r: nat)
    requires start <= SIZE_MAX
    ensures 11 <= r <= SIZE_MAX && r >= start
    ensures r < SIZE_MAX <==> Prime(r)
    ensures forall p: nat :: start <= p < r && 10 <= p ==> !Prime(p)
  {
    hide Divides, Prime;
    var first := if start < 10 then 10 else start;
    var candidate := if first % 2 == 0 then first + 1 else first;
    if first % 2 == 0 {
      EvenIsNotPrime(first);
    }
    LastThreeAreNotPrime(SIZE_MAX);
    var prime := false;
    if SIZE_MAX != candidate {
      prime := IsPrime(candidate);
    }
    while SIZE_MAX != candidate && !prime
      invariant 11 <= candidate <= SIZE_MAX && candidate % 2 == 1 && candidate >= first
      invariant prime <==> Prime(candidate)
      invariant forall p: nat :: first <= p < candidate ==> !Prime(p)
      decreases SIZE_MAX - candidate
    {
      EvenIsNotPrime(candidate + 1);
      candidate := candidate + 2;
      if SIZE_MAX != candidate {
        prime := IsPrime(candidate);
      }
    }
    r := candidate;
  }
}
