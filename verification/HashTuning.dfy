/** When a hash table grows and shrinks, and to what size (src/gnu/hash.c), with the float ratios as reals. */
module HashTuning {
  import opened Primes
  import opened Products

  /** The most entries of 8 bytes an array may have: PTRDIFF_MAX / 8. */
  const ARRAY_MAX: nat := 0x7FFF_FFFF_FFFF_FFFF / 8

  datatype Tuning = Tuning(
    shrinkThreshold: real, shrinkFactor: real, growthThreshold: real, growthFactor: real, isNBuckets: bool)

  const DEFAULT := Tuning(0.0, 1.0, 0.8, 1.414, false)

  /** The test of check_tuning. */
  predicate Acceptable(t: Tuning) {
    && 0.1 < t.growthThreshold < 0.9
    && 1.1 < t.growthFactor
    && 0.0 <= t.shrinkThreshold
    && t.shrinkThreshold + 0.1 < t.shrinkFactor <= 1.0
    && t.shrinkThreshold + 0.1 < t.growthThreshold
  }

  /** The ratios after check_tuning. */
  function Checked(t: Tuning): Tuning {
    if Acceptable(t) then t else DEFAULT
  }

  /** The candidate can be turned into a number of buckets: C gives no meaning to the conversion of 0 / 0, or of a
      quotient that is -1 or less. A positive candidate over zero is infinite. */
  predicate Usable(candidate: int, t: Tuning) {
    || t.isNBuckets || t.growthThreshold > 0.0
    || if t.growthThreshold == 0.0 then candidate > 0 else candidate as real / t.growthThreshold > -1.0
  }

  /** The load test of hash_insert_if_absent. */
  predicate MustGrow(t: Tuning, used: nat, buckets: nat) {
    used as real > t.growthThreshold * buckets as real
  }

  /** The load test of hash_delete. */
  predicate MustShrink(t: Tuning, used: int, buckets: nat) {
    (used as real) < t.shrinkThreshold * buckets as real
  }

  function GrowthCandidate(t: Tuning, buckets: nat): real {
    if t.isNBuckets then buckets as real * t.growthFactor
    else buckets as real * t.growthFactor * t.growthThreshold
  }

  function ShrinkCandidate(t: Tuning, buckets: nat): real {
    if t.isNBuckets then buckets as real * t.shrinkFactor
    else buckets as real * t.shrinkFactor * t.growthThreshold
  }

  lemma MulNonNegative(a: real, b: real)
    requires a >= 0.0 && b >= 0.0
    ensures a * b >= 0.0
  {
  }

  lemma MulAtMost(a: real, b: real)
    requires a >= 0.0 && b <= 1.0
    ensures a * b <= a
  {
  }

  lemma GrowthIsNonNegative(t: Tuning, buckets: nat)
    requires Acceptable(t)
    ensures GrowthCandidate(t, buckets) >= 0.0
  {
    MulNonNegative(buckets as real, t.growthFactor);
    MulNonNegative(buckets as real * t.growthFactor, t.growthThreshold);
  }

  lemma ShrinkIsInRange(t: Tuning, buckets: nat)
    requires Acceptable(t)
    ensures 0.0 <= ShrinkCandidate(t, buckets) <= buckets as real
  {
    var scaled := buckets as real * t.shrinkFactor;
    MulNonNegative(buckets as real, t.shrinkFactor);
    MulAtMost(buckets as real, t.shrinkFactor);
    ScaledDown(scaled, t.growthThreshold, buckets as real);
  }

  lemma ScaledDown(scaled: real, ratio: real, bound: real)
    requires 0.0 <= scaled <= bound && 0.0 <= ratio <= 1.0
    ensures 0.0 <= scaled * ratio <= bound
  {
    MulNonNegative(scaled, ratio);
    MulAtMost(scaled, ratio);
  }

  /** Buckets enough for `candidate` entries, up to the truncation to an integer. */
  predicate HoldsCandidate(t: Tuning, candidate: nat, buckets: nat)
    requires t.growthThreshold > 0.0
  {
    candidate as real / t.growthThreshold < buckets as real + 1.0
  }

  /** The quotient is beyond the largest size_t, or infinite. */
  predicate TooLarge(candidate: int, t: Tuning) {
    !t.isNBuckets && (t.growthThreshold == 0.0 || SIZE_MAX as real <= candidate as real / t.growthThreshold)
  }

  /** The number of buckets that is asked for; a negative quotient is truncated to 0. */
  function Wanted(candidate: int, t: Tuning): int {
    if t.isNBuckets then candidate
    else if t.growthThreshold <= 0.0 then 0
    else (candidate as real / t.growthThreshold).Floor
  }

  /** No prime number of buckets is as large as wanted and small enough for an array. */
  ghost predicate NoSize(candidate: int, t: Tuning) {
    TooLarge(candidate, t) || forall p: nat :: Wanted(candidate, t) <= p && 11 <= p <= ARRAY_MAX ==> !Prime(p)
  }

  /** The least prime from 11 on that is as large as wanted. */
  ghost predicate SizeFor(candidate: int, t: Tuning, n: nat) {
    && Prime(n) && 11 <= n <= ARRAY_MAX && n >= Wanted(candidate, t)
    && forall p: nat :: Wanted(candidate, t) <= p < n && 11 <= p ==> !Prime(p)
  }

  /** The load test of insertion asks for growth, and still does once the ratios have been checked. */
  predicate Full(t: Tuning, used: nat, buckets: nat) {
    MustGrow(t, used, buckets) && MustGrow(Checked(t), used, buckets)
  }

  /** The ratios after a load test that had them checked if it asked for a change of size. */
  function RatiosAfter(asked: bool, t: Tuning): Tuning {
    if asked then Checked(t) else t
  }

  ghost predicate CannotGrow(t: Tuning, buckets: nat) {
    SIZE_MAX as real <= GrowthCandidate(t, buckets) || NoSize(GrowthCandidate(t, buckets).Floor, t)
  }

  /** The load test of deletion asks for shrinking, and still does once the ratios have been checked. */
  predicate Sparse(t: Tuning, used: int, buckets: nat) {
    MustShrink(t, used, buckets) && MustShrink(Checked(t), used, buckets)
  }

  /** The sizes before and after a shrinking step during which `refused` requests were refused. */
  ghost predicate Shrank(t: Tuning, used: int, before: nat, after: nat, refused: nat) {
    var candidate := ShrinkCandidate(Checked(t), before).Floor;
    if Sparse(t, used, before) && refused == 0 && !NoSize(candidate, Checked(t)) then
      SizeFor(candidate, Checked(t), after)
    else
      after == before
  }

  /** src/gnu/hash.c compute_bucket_size: the least prime from 11 on that is large enough; 0 just when no such table can
      exist. */
  method ComputeBucketSize(candidate: nat, t: Tuning) returns (n: nat)
    requires candidate <= SIZE_MAX && Usable(candidate, t)
    ensures n == 0 || 11 <= n <= ARRAY_MAX
    ensures n > 0 && !t.isNBuckets && t.growthThreshold > 0.0 ==> HoldsCandidate(t, candidate, n)
    ensures n > 0 ==> SizeFor(candidate, t, n)
    ensures n == 0 <==> NoSize(candidate, t)
    ensures (t.isNBuckets || t.growthThreshold > 0.0) && n > 0 ==> SizedFor(n, Amount(candidate, t), 1.0)
    ensures (t.isNBuckets || t.growthThreshold > 0.0) && n == 0 ==> NoRoom(Amount(candidate, t))
  {
    n := NextSize(candidate, t);
    if t.isNBuckets || t.growthThreshold > 0.0 {
      if n > 0 {
        SizeMeans(candidate, t, n);
      } else {
        NoSizeMeans(candidate, t);
      }
    }
  }

  /** The number of buckets a candidate stands for, before it is truncated. */
  function Amount(candidate: nat, t: Tuning): real
    requires t.isNBuckets || t.growthThreshold > 0.0
  {
    if t.isNBuckets then candidate as real else candidate as real / t.growthThreshold
  }

  method NextSize(candidate: nat, t: Tuning) returns (n: nat)
    requires candidate <= SIZE_MAX && Usable(candidate, t)
    ensures n == 0 || 11 <= n <= ARRAY_MAX
    ensures n > 0 && !t.isNBuckets && t.growthThreshold > 0.0 ==> HoldsCandidate(t, candidate, n)
    ensures n > 0 ==> SizeFor(candidate, t, n)
    ensures n == 0 <==> NoSize(candidate, t)
  {
    var c := candidate;
    if !t.isNBuckets {
      if TooLarge(candidate, t) {
        return 0;
      }
      if t.growthThreshold > 0.0 {
        QuotientNonNegative(candidate as real, t.growthThreshold);
      }
      c := Wanted(candidate, t);
    }
    n := NextPrime(c);
    if ARRAY_MAX < n {
      n := 0;
    }
  }

  lemma QuotientNonNegative(a: real, b: real)
    requires a >= 0.0 && b > 0.0
    ensures a / b >= 0.0
  {
  }

  lemma QuotientTimes(a: real, b: real, c: real)
    requires b > 0.0 && a / b < c
    ensures a < b * c
  {
    assert a == (a / b) * b;
  }

  /** A table sized for `candidate` entries takes that many without growing, although its size was truncated: with
      fewer than `candidate` entries in it, no load test asks for growth. */
  lemma CandidateEntriesFit(t: Tuning, candidate: nat, buckets: nat, used: nat)
    requires Acceptable(t) && HoldsCandidate(t, candidate, buckets)
    requires used < candidate
    ensures !MustGrow(t, used, buckets)
  {
    QuotientTimes(candidate as real, t.growthThreshold, buckets as real + 1.0);
    assert t.growthThreshold * (buckets as real + 1.0) == t.growthThreshold * buckets as real + t.growthThreshold;
  }

  // ---------------------------------------------------------------- what the ratios promise

  /** The size of every table: a prime from 11 on that an array can have. */
  ghost predicate Sized(n: nat) {
    Prime(n) && 11 <= n <= ARRAY_MAX
  }

  /** The largest array of pointers is the largest whose size in bytes fits in ptrdiff_t. */
  lemma ArrayLimit()
    ensures 8 * ARRAY_MAX < 0x8000_0000_0000_0000 <= 8 * (ARRAY_MAX + 1)
  {
  }

  /** Acceptable ratios keep a distance of a tenth: from 0 and 1, and from each other. */
  lemma RatiosKeepDistance(t: Tuning)
    ensures Acceptable(t) <==>
      && t.growthThreshold - 0.0 > 0.1 && 1.0 - t.growthThreshold > 0.1 && t.growthFactor - 1.0 > 0.1
      && t.growthThreshold - t.shrinkThreshold > 0.1 && t.shrinkFactor - t.shrinkThreshold > 0.1
      && t.shrinkThreshold >= 0.0 && t.shrinkFactor <= 1.0
    ensures Acceptable(DEFAULT) && DEFAULT.growthThreshold == 0.8 && DEFAULT.growthFactor == 1.414
    ensures !DEFAULT.isNBuckets && DEFAULT.shrinkThreshold == 0.0 && DEFAULT.shrinkFactor == 1.0
  {
  }

  lemma DivideBounds(k: int, r: real, ratio: real)
    requires 0.0 < ratio && k as real <= r < k as real + 1.0
    ensures k as real / ratio <= r / ratio < k as real / ratio + 1.0 / ratio
  {
    var x, y, z := k as real / ratio, r / ratio, 1.0 / ratio;
    assert ratio * x == k as real && ratio * y == r && ratio * z == 1.0;
    MulOrder(ratio, y, x);
    assert ratio * (x + z) == k as real + 1.0;
    MulOrder(ratio, y, x + z);
  }

  lemma QuotientOfProduct(x: real, ratio: real)
    requires ratio > 0.0
    ensures x * ratio / ratio == x
  {
  }

  function Scaled(n: nat, factor: real): real {
    n as real * factor
  }

  /** A size that was computed for `amount` buckets, to within the truncations: it is at most every prime that is large
      enough, and short of the amount by less than `slack`. */
  ghost predicate SizedFor(n: nat, amount: real, slack: real) {
    && Sized(n) && n as real + slack > amount
    && forall q: nat :: Prime(q) && 11 <= q && q as real >= amount ==> n <= q
  }

  /** The size for a candidate, said of the candidate and the ratio alone. */
  lemma SizeMeans(candidate: nat, t: Tuning, n: nat)
    requires SizeFor(candidate, t, n) && (t.isNBuckets || t.growthThreshold > 0.0)
    ensures SizedFor(n, Amount(candidate, t), 1.0)
  {
    var amount := Amount(candidate, t);
    assert Wanted(candidate, t) == amount.Floor;
    forall q: nat | Prime(q) && 11 <= q && q as real >= amount
      ensures n <= q
    {
      assert Wanted(candidate, t) <= q;
    }
  }

  /** Every prime that is large enough for the amount is too large for an array. */
  ghost predicate NoRoom(amount: real) {
    forall q: nat :: Prime(q) && 11 <= q && q as real >= amount ==> q > ARRAY_MAX
  }

  /** When there is no size for a candidate, said of the candidate and the ratio alone. */
  lemma NoSizeMeans(candidate: nat, t: Tuning)
    requires NoSize(candidate, t) && (t.isNBuckets || t.growthThreshold > 0.0)
    ensures NoRoom(Amount(candidate, t))
  {
    var amount := Amount(candidate, t);
    assert Wanted(candidate, t) == amount.Floor;
    forall q: nat | Prime(q) && 11 <= q && q as real >= amount
      ensures q > ARRAY_MAX
    {
      assert Wanted(candidate, t) <= q;
    }
  }

  /** What truncating a scaled amount loses. */
  lemma TruncatedAmount(scaled: real, amount: real, ratio: real)
    requires ratio > 0.0 && scaled == amount * ratio
    ensures scaled.Floor as real / ratio <= amount < scaled.Floor as real / ratio + 1.0 / ratio
  {
    QuotientOfProduct(amount, ratio);
    DivideBounds(scaled.Floor, scaled, ratio);
  }

  /** A size for somewhat less than an amount is a size for the amount, with more slack. */
  lemma SizedForMore(p: nat, less: real, amount: real, slack: real, more: real)
    requires SizedFor(p, less, slack) && less <= amount && amount + slack <= less + more
    ensures SizedFor(p, amount, more)
  {
  }

  /** How far two truncations may leave a size short of the scaled one. */
  function Slack(t: Tuning): real {
    if t.isNBuckets || t.growthThreshold <= 0.0 then 2.0 else 1.0 + 1.0 / t.growthThreshold
  }

  /** The size for a scaled table of n buckets, said of the factor alone; the slack is that of two truncations. */
  lemma ScaledSizeMeans(t: Tuning, n: nat, factor: real, scaled: real, p: nat)
    requires t.growthThreshold > 0.0 && scaled >= 0.0 && SizeFor(scaled.Floor, t, p)
    requires scaled == if t.isNBuckets then Scaled(n, factor) else Scaled(n, factor) * t.growthThreshold
    ensures SizedFor(p, Scaled(n, factor), Slack(t))
  {
    var amount, less := Scaled(n, factor), Amount(scaled.Floor, t);
    SizeMeans(scaled.Floor, t, p);
    hide SizedFor, SizeFor, Scaled;
    if t.isNBuckets {
      SizedForMore(p, less, amount, 1.0, 2.0);
    } else {
      TruncatedAmount(scaled, amount, t.growthThreshold);
      SizedForMore(p, less, amount, 1.0, 1.0 + 1.0 / t.growthThreshold);
    }
  }

  /** The ratios let a table of n buckets grow: an integer lies between the loads of n + 1 and of growthFactor * n
      buckets. */
  predicate CanGrow(t: Tuning, n: nat) {
    || t.isNBuckets
    || (n as real * t.growthFactor * t.growthThreshold).Floor as real >= (n + 1) as real * t.growthThreshold
  }

  lemma MulAbove(n: nat, f: real)
    requires n >= 11 && f > 1.1
    ensures n as real * f > n as real + 1.0
  {
    assert n as real * (f - 1.1) >= 0.0;
  }

  lemma QuotientAtLeast(a: real, b: real, m: int)
    requires b > 0.0
    ensures (a / b).Floor >= m <==> a >= m as real * b
  {
    assert b * (a / b) == a;
    MulOrder(b, a / b, m as real);
  }

  /** A growth makes a table larger if and only if the ratios let it grow. */
  lemma GrowthEnlarges(t: Tuning, n: nat, p: nat)
    requires Acceptable(t) && Sized(n) && SizeFor(GrowthCandidate(t, n).Floor, t, p)
    ensures p > n <==> CanGrow(t, n)
    ensures SizedFor(p, Scaled(n, t.growthFactor), Slack(t))
  {
    hide SizedFor, CanGrow, SizeFor, Wanted, GrowthCandidate, Acceptable;
    GrowthIsNonNegative(t, n);
    SizeAbove(GrowthCandidate(t, n).Floor, t, n, p);
    WantedAbove(t, n);
    GrownSize(t, n, p);
  }

  lemma SizeAbove(candidate: int, t: Tuning, n: nat, p: nat)
    requires Sized(n) && SizeFor(candidate, t, p)
    ensures p > n <==> Wanted(candidate, t) > n
  {
  }

  lemma WantedAbove(t: Tuning, n: nat)
    requires Acceptable(t) && n >= 11
    ensures Wanted(GrowthCandidate(t, n).Floor, t) > n <==> CanGrow(t, n)
  {
    if t.isNBuckets {
      MulAbove(n, t.growthFactor);
    } else {
      QuotientAtLeast(GrowthCandidate(t, n).Floor as real, t.growthThreshold, n + 1);
    }
  }

  lemma GrownSize(t: Tuning, n: nat, p: nat)
    requires Acceptable(t) && GrowthCandidate(t, n) >= 0.0 && SizeFor(GrowthCandidate(t, n).Floor, t, p)
    ensures SizedFor(p, Scaled(n, t.growthFactor), Slack(t))
  {
    hide SizedFor, SizeFor;
    ScaledSizeMeans(t, n, t.growthFactor, GrowthCandidate(t, n), p);
  }

  /** A table cannot grow only if every prime as large as the scaled size is too large for an array. */
  lemma GrowthIsImpossible(t: Tuning, n: nat)
    requires Acceptable(t) && CannotGrow(t, n)
    ensures NoRoom(Scaled(n, t.growthFactor))
  {
    GrowthIsNonNegative(t, n);
    GrowthIsScaled(t, n);
    var candidate, amount := GrowthCandidate(t, n), Scaled(n, t.growthFactor);
    hide Scaled, GrowthCandidate, NoSize;
    if SIZE_MAX as real > candidate {
      NoSizeMeans(candidate.Floor, t);
      if !t.isNBuckets {
        TruncatedAmount(candidate, amount, t.growthThreshold);
      }
    }
  }

  lemma GrowthIsScaled(t: Tuning, n: nat)
    requires Acceptable(t)
    ensures GrowthCandidate(t, n) == Scaled(n, t.growthFactor) * (if t.isNBuckets then 1.0 else t.growthThreshold)
    ensures GrowthCandidate(t, n) <= Scaled(n, t.growthFactor)
  {
    MulNonNegative(n as real, t.growthFactor);
    MulAtMost(Scaled(n, t.growthFactor), t.growthThreshold);
  }

  /** Ratios with enough room let every table grow, the default ones among them. */
  lemma RoomToGrow(t: Tuning, n: nat)
    requires t.growthThreshold * ((t.growthFactor - 1.0) * n as real - 1.0) >= 1.0
    ensures CanGrow(t, n)
  {
    var h, f, x := t.growthThreshold, t.growthFactor, n as real;
    assert h * ((f - 1.0) * x - 1.0) == x * f * h - (n + 1) as real * h;
  }

  lemma DefaultGrows(n: nat)
    requires n >= 11
    ensures CanGrow(DEFAULT, n)
  {
    RoomToGrow(DEFAULT, n);
  }

  /** Acceptable ratios need not: with a threshold of 0.11 and a factor of 1.11, a full table of 11 buckets keeps its
      size, and one of 13 even gets smaller. */
  lemma GrowthCanFail()
    ensures var t := Tuning(0.0, 1.0, 0.11, 1.11, false);
      && Acceptable(t) && Full(t, 2, 11) && !CanGrow(t, 11) && SizeFor(GrowthCandidate(t, 11).Floor, t, 11)
      && Full(t, 2, 13) && !CanGrow(t, 13) && SizeFor(GrowthCandidate(t, 13).Floor, t, 11)
  {
    var t := Tuning(0.0, 1.0, 0.11, 1.11, false);
    assert Prime(11) by {
      ElevenIsPrime();
    }
    assert GrowthCandidate(t, 11).Floor == 1 && GrowthCandidate(t, 13).Floor == 1;
    assert Wanted(1, t) == 9;
  }

  lemma SmallDivisors()
    ensures !Divides(2, 11) && !Divides(3, 11) && !Divides(4, 11) && !Divides(5, 11) && !Divides(6, 11)
    ensures !Divides(7, 11) && !Divides(8, 11) && !Divides(9, 11) && !Divides(10, 11)
  {
  }

  lemma ElevenIsPrime()
    ensures Prime(11)
  {
    hide Divides;
    SmallDivisors();
  }

  /** A smaller prime would do for a shrunk table of n buckets. */
  ghost predicate SmallerPrime(t: Tuning, n: nat) {
    exists q: nat :: Prime(q) && 11 <= q < n && q as real >= Scaled(n, t.shrinkFactor)
  }

  /** A shrinking never makes a table larger, and makes it smaller whenever a smaller prime would do. */
  lemma ShrinkingReduces(t: Tuning, n: nat, p: nat)
    requires Acceptable(t) && Sized(n) && SizeFor(ShrinkCandidate(t, n).Floor, t, p)
    ensures p <= n && (SmallerPrime(t, n) ==> p < n)
    ensures SizedFor(p, Scaled(n, t.shrinkFactor), Slack(t))
  {
    hide *;
    ShrunkSize(t, n, p);
    ScaledAtMost(t, n);
    NoLargerThan(t, n, p);
  }

  /** A size for the shrunk table is at most every size that is large enough. */
  lemma NoLargerThan(t: Tuning, n: nat, p: nat)
    requires SizedFor(p, Scaled(n, t.shrinkFactor), Slack(t)) && Sized(n) && Scaled(n, t.shrinkFactor) <= n as real
    ensures p <= n && (SmallerPrime(t, n) ==> p < n)
  {
    hide Scaled, Slack;
  }

  lemma ScaledAtMost(t: Tuning, n: nat)
    requires Acceptable(t)
    ensures Scaled(n, t.shrinkFactor) <= n as real
  {
    MulAtMost(n as real, t.shrinkFactor);
  }

  lemma ShrunkSize(t: Tuning, n: nat, p: nat)
    requires Acceptable(t) && Sized(n) && SizeFor(ShrinkCandidate(t, n).Floor, t, p)
    ensures SizedFor(p, Scaled(n, t.shrinkFactor), Slack(t))
  {
    hide SizedFor, SizeFor;
    ShrinkIsInRange(t, n);
    ScaledSizeMeans(t, n, t.shrinkFactor, ShrinkCandidate(t, n), p);
  }

  /** The load tests, said of the numbers. */
  lemma LoadTests(t: Tuning, used: int, n: nat)
    ensures used >= 0 ==> (Full(t, used, n) <==>
      used as real > t.growthThreshold * n as real && (Acceptable(t) || used as real > 0.8 * n as real))
    ensures used >= 0 ==> (Sparse(t, used, n) <==> (used as real) < t.shrinkThreshold * n as real && Acceptable(t))
  {
  }

  /** What an insertion that returns `code` does to the size of a table with n buckets, `used` of them in use: below the
      growth threshold it keeps the size; above it, it enlarges the table as far as the ratios let it grow. Ratios that
      are not acceptable count as the default ones. */
  ghost predicate InsertionSize(t: Tuning, used: nat, n: nat, after: nat, code: int) {
    var load, limit := used as real, t.growthThreshold * n as real;
    && (load <= limit || (!Acceptable(t) && load <= 0.8 * n as real) || code == 0 ==> after == n)
    && (code == 1 && load > limit && Acceptable(t) ==>
      (after > n <==> CanGrow(t, n)) && SizedFor(after, Scaled(n, t.growthFactor), Slack(t)))
    && (code == 1 && load > limit && load > 0.8 * n as real && !Acceptable(t) ==>
      after > n && SizedFor(after, Scaled(n, 1.414), 2.25))
  }

  lemma InsertionSizeHolds(t: Tuning, used: nat, n: nat, after: nat, code: int)
    requires Sized(n) && (!Full(t, used, n) || code == 0 ==> after == n)
    requires Full(t, used, n) && code == 1 ==> SizeFor(GrowthCandidate(Checked(t), n).Floor, Checked(t), after)
    ensures InsertionSize(t, used, n, after, code)
  {
    hide Full, SizeFor, SizedFor, CanGrow, GrowthCandidate, Slack, Scaled;
    LoadTests(t, used, n);
    if Full(t, used, n) && code == 1 {
      if Acceptable(t) {
        GrowthEnlarges(t, n, after);
      } else {
        GrowthByDefault(n, after);
      }
    }
  }

  lemma GrowthByDefault(n: nat, p: nat)
    requires Sized(n) && SizeFor(GrowthCandidate(DEFAULT, n).Floor, DEFAULT, p)
    ensures p > n && SizedFor(p, Scaled(n, 1.414), 2.25)
  {
    hide SizeFor, SizedFor, CanGrow, GrowthCandidate;
    RatiosKeepDistance(DEFAULT);
    GrowthEnlarges(DEFAULT, n, p);
    DefaultGrows(n);
  }

  /** When an insertion fails although no request was refused: the table was above its growth threshold, and no prime
      would do for a larger one. */
  ghost predicate InsertionIsHopeless(t: Tuning, used: nat, n: nat) {
    && used as real > t.growthThreshold * n as real && (Acceptable(t) || used as real > 0.8 * n as real)
    && NoRoom(Scaled(n, if Acceptable(t) then t.growthFactor else 1.414))
  }

  lemma Hopeless(t: Tuning, used: nat, n: nat)
    requires Full(t, used, n) && CannotGrow(Checked(t), n)
    ensures InsertionIsHopeless(t, used, n)
  {
    hide Full, CannotGrow, NoRoom, Scaled;
    LoadTests(t, used, n);
    RatiosKeepDistance(DEFAULT);
    GrowthIsImpossible(Checked(t), n);
  }

  /** What a deletion does to the size, when it leaves `used` buckets in use and has emptied a bucket: it shrinks a
      table below its shrink threshold if a smaller prime will do, unless a request is refused. */
  ghost predicate DeletionSize(t: Tuning, used: int, n: nat, after: nat, emptied: bool, refused: nat) {
    && Reduced(t, n, after)
    && (!emptied || !Acceptable(t) || used as real >= t.shrinkThreshold * n as real || refused > 0 ==> after == n)
    && (emptied && Acceptable(t) && (used as real) < t.shrinkThreshold * n as real && refused == 0
        && SmallerPrime(t, n) ==>
      after < n)
  }

  lemma DeletionSizeHolds(t: Tuning, used: int, n: nat, after: nat, emptied: bool, refused: nat)
    requires Sized(n) && (emptied ==> used >= 0) && (!emptied ==> after == n)
    requires emptied ==> Shrank(t, used, n, after, refused)
    ensures DeletionSize(t, used, n, after, emptied, refused)
  {
    SameSize(t, n);
    if emptied {
      LoadTests(t, used, n);
      hide SmallerPrime, SizeFor, SizedFor, Sparse, NoSize, Slack, Scaled;
      if Sparse(t, used, n) && refused == 0 {
        OwnSizeWillDo(t, n);
        ShrinkingReduces(t, n, after);
      }
    }
  }

  /** What a shrinking step may do to the size. */
  ghost predicate Reduced(t: Tuning, before: nat, after: nat) {
    after == before
    || (after < before && Acceptable(t) && SizedFor(after, Scaled(before, t.shrinkFactor), Slack(t)))
  }

  /** A table can always be shrunk: its own size is a prime that will do. */
  lemma OwnSizeWillDo(t: Tuning, n: nat)
    requires Acceptable(t) && Sized(n)
    ensures !NoSize(ShrinkCandidate(t, n).Floor, t)
  {
    ShrinkIsInRange(t, n);
    var c := ShrinkCandidate(t, n);
    if !t.isNBuckets {
      ShrunkAmount(t, n);
    }
    assert Wanted(c.Floor, t) <= n;
  }

  lemma ShrunkAmount(t: Tuning, n: nat)
    requires Acceptable(t) && !t.isNBuckets && ShrinkCandidate(t, n) >= 0.0 && n <= ARRAY_MAX
    ensures ShrinkCandidate(t, n).Floor as real / t.growthThreshold <= n as real
  {
    hide Scaled, ShrinkCandidate;
    ShrinkIsScaled(t, n);
    ScaledAtMost(t, n);
    TruncatedAmount(ShrinkCandidate(t, n), Scaled(n, t.shrinkFactor), t.growthThreshold);
  }

  lemma ShrinkIsScaled(t: Tuning, n: nat)
    requires Acceptable(t) && !t.isNBuckets
    ensures ShrinkCandidate(t, n) == Scaled(n, t.shrinkFactor) * t.growthThreshold
  {
  }

  lemma SameSize(t: Tuning, n: nat)
    ensures Reduced(t, n, n)
  {
  }
}
