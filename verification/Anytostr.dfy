/** Printing integers within a static bound: src/gnu/anytostr.c and the bounds of src/gnu/intprops.h. */
module Anytostr {
  import opened Decimals

  /** INT_BITS_STRLEN_BOUND. */
  function BitsBound(bits: nat): nat {
    (bits * 146 + 484) / 485
  }

  /** INT_STRLEN_BOUND for a type of the given width. */
  function StrlenBound(width: nat, signed: bool): nat
    requires signed ==> width > 0
  {
    if signed then BitsBound(width - 1) + 1 else BitsBound(width)
  }

  /** INT_BUFSIZE_BOUND. */
  function BufsizeBound(width: nat, signed: bool): nat
    requires signed ==> width > 0
  {
    StrlenBound(width, signed) + 1
  }

  /** The values of a two's complement or unsigned type. */
  ghost predicate InType(i: int, width: nat, signed: bool) {
    if signed then width > 0 && -(Pow(2, width - 1) as int) <= i < Pow(2, width - 1) else 0 <= i < Pow(2, width)
  }

  lemma LogBound()
    ensures Pow(2, 485) < Pow(10, 146)
  {
    PowMul(2, 97, 5);
    TwoTo97();
    var a := 158456325028528675187087900672;
    assert Pow(a, 5) == a * (a * (a * (a * a)));
    TenTo146();
  }

  lemma SmallPowers()
    ensures Pow(2, 1) == 2 && Pow(2, 8) == 256 && Pow(10, 1) == 10 && Pow(10, 2) == 100 && Pow(10, 8) == 1_0000_0000
  {
  }

  lemma TwoTo97()
    ensures Pow(2, 97) == 158456325028528675187087900672
  {
    hide Pow;
    SmallPowers();
    PowAdd(2, 8, 8);
    PowAdd(2, 16, 16);
    PowAdd(2, 32, 32);
    PowAdd(2, 32, 1);
    PowAdd(2, 64, 33);
  }

  const TEN_TO_73: nat := 10000000000000000000000000000000000000000000000000000000000000000000000000

  lemma TenTo146()
    ensures Pow(10, 146) == TEN_TO_73 * TEN_TO_73
  {
    hide Pow;
    SmallPowers();
    PowAdd(10, 8, 8);
    PowAdd(10, 16, 16);
    PowAdd(10, 32, 32);
    PowAdd(10, 64, 8);
    PowAdd(10, 72, 1);
    PowAdd(10, 73, 73);
  }

  /** The bound is 146 * bits / 485, rounded up. */
  lemma BitsBoundReaches(bits: nat)
    ensures 485 * (BitsBound(bits) - 1) < 146 * bits <= 485 * BitsBound(bits)
  {
  }

  /** Every number of `bits` bits has at most BitsBound(bits) decimal digits. */
  lemma BitsBoundSuffices(bits: nat)
    requires bits > 0
    ensures Pow(2, bits) < Pow(10, BitsBound(bits))
  {
    hide Pow, BitsBound;
    var c := BitsBound(bits);
    LogBound();
    PowStrictBase(Pow(2, 485), Pow(10, 146), bits);
    PowMul(2, 485, bits);
    PowMul(10, 146, bits);
    PowMul(2, bits, 485);
    PowMul(10, c, 485);
    assert 485 * bits == bits * 485 && 485 * c == c * 485;
    BitsBoundReaches(bits);
    PowMonotoneExponent(10, 146 * bits, 485 * c);
    if Pow(2, bits) >= Pow(10, c) {
      PowMonotoneBase(Pow(10, c), Pow(2, bits), 485);
    }
  }

  lemma TenTo59()
    ensures Pow(10, 59) == 100000000000000000000000000000000000000000000000000000000000
  {
    hide Pow;
    SmallPowers();
    PowAdd(10, 1, 2);
    PowAdd(10, 8, 8);
    PowAdd(10, 16, 16);
    PowAdd(10, 3, 8);
    PowAdd(10, 11, 16);
    PowAdd(10, 27, 32);
  }

  lemma LogIsClose()
    ensures Pow(10, 59) < Pow(2, 196)
  {
    hide Pow;
    SmallPowers();
    TwoTo97();
    PowAdd(2, 97, 97);
    PowAdd(2, 1, 1);
    PowAdd(2, 194, 2);
    TenTo59();
  }

  /** Up to 196 bits the bound is exact: one digit less would not do. */
  lemma BitsBoundIsExact(bits: nat)
    requires 0 < bits <= 196
    ensures BitsBound(bits) > 0 && Pow(10, BitsBound(bits) - 1) < Pow(2, bits)
  {
    BitsBoundReaches(bits);
    hide Pow, BitsBound;
    var c := BitsBound(bits) - 1;
    LogIsClose();
    PowStrictBase(Pow(10, 59), Pow(2, 196), bits);
    PowMul(10, 59, bits);
    PowMul(2, 196, bits);
    PowMul(10, c, 196);
    PowMul(2, bits, 196);
    assert 196 * bits == bits * 196;
    PowMonotoneExponent(10, c * 196, 59 * bits);
    if Pow(10, c) >= Pow(2, bits) {
      PowMonotoneBase(Pow(2, bits), Pow(10, c), 196);
    }
  }

  // ---------------------------------------------------------------- printing

  /** The decimal notation of an integer. */
  function Text(i: int): string {
    if i < 0 then "-" + Decimal(-i) else Decimal(i)
  }

  /** The number a decimal notation denotes, if it is one. */
  predicate IsText(s: string) {
    if s != "" && s[0] == '-' then Canonical(s[1..]) && s[1..] != "0" else Canonical(s)
  }

  function Parse(s: string): int
    requires IsText(s)
  {
    var v: int := Value(if s[0] == '-' then s[1..] else s);
    if s[0] == '-' then -v else v
  }

  /** Printing and parsing are inverse to each other. */
  lemma PrintParse(i: int)
    ensures IsText(Text(i)) && Parse(Text(i)) == i
  {
    DecimalRoundTrip(if i < 0 then -i else i);
    if i < 0 {
      assert Text(i)[1..] == Decimal(-i);
    }
  }

  lemma ParsePrint(s: string)
    requires IsText(s)
    ensures Text(Parse(s)) == s
  {
    if s[0] == '-' {
      DecimalIsUnique(s[1..]);
      assert Decimal(0) == "0";
      assert s == "-" + s[1..];
    } else {
      DecimalIsUnique(s);
    }
  }

  /** C division and remainder by ten, which truncate toward zero. */
  function Quot10(i: int): int {
    if i < 0 then -(-i / 10) else i / 10
  }

  function Rem10(i: int): int {
    if i < 0 then -(-i % 10) else i % 10
  }

  /** The text fits the static bound, the most negative value included. */
  lemma TextFits(i: int, width: nat, signed: bool)
    requires InType(i, width, signed) && width >= (if signed then 2 else 1)
    ensures |Text(i)| <= StrlenBound(width, signed)
  {
    var bits := if signed then width - 1 else width;
    BitsBoundSuffices(bits);
    assert BitsBound(bits) > 0;
    DecimalLength(if i < 0 then -i else i, BitsBound(bits));
  }

  /** The bounds are exact for every type of up to 196 bits: its longest value needs all of them. */
  lemma BoundIsReached(width: nat, signed: bool)
    requires (if signed then 2 else 1) <= width <= 196
    ensures var i := if signed then -(Pow(2, width - 1) as int) else Pow(2, width) - 1;
      InType(i, width, signed) && |Text(i)| == StrlenBound(width, signed) == BufsizeBound(width, signed) - 1
  {
    var bits := if signed then width - 1 else width;
    BitsBoundIsExact(bits);
    BitsBoundSuffices(bits);
    hide Pow, BitsBound, Decimal;
    var m := if signed then Pow(2, bits) else Pow(2, bits) - 1;
    DecimalLength(m, BitsBound(bits));
    DecimalReaches(m, BitsBound(bits) - 1);
  }

  /** src/gnu/anytostr.c anytostr, for any integer type: the digits never reach before the start of a buffer of the
      static size. */
  method AnyToStr(value: int, width: nat, signed: bool, buf: array<char>) returns (p: nat)
    requires InType(value, width, signed) && width >= (if signed then 2 else 1)
    requires buf.Length >= BufsizeBound(width, signed)
    modifies buf
    ensures p <= StrlenBound(width, signed) && buf[p..StrlenBound(width, signed)] == Text(value)
    ensures buf[StrlenBound(width, signed)] == '\0'
  {
    var bound := StrlenBound(width, signed);
    TextFits(value, width, signed);
    hide Decimal, StrlenBound, InType;
    p := bound;
    buf[p] := '\0';
    assert buf[bound..][0] == '\0';
    p := WriteDigits(value, buf, bound);
    if value < 0 {
      p := WriteSign(buf, p, bound);
    }
    assert buf[bound] == buf[bound..][0];
  }

  /** Puts the minus sign in front of the digits. */
  method WriteSign(buf: array<char>, p: nat, bound: nat) returns (p': nat)
    requires 0 < p <= bound < buf.Length
    modifies buf
    ensures p' == p - 1 && buf[p'..bound] == "-" + old(buf[p..bound]) && buf[bound..] == old(buf[bound..])
  {
    p' := p - 1;
    buf[p'] := '-';
  }

  /** The digits still to be written when the last ones have been. */
  function Leading(m: nat): string {
    if m == 0 then "" else Decimal(m)
  }

  lemma LastDigit(m: nat)
    ensures Decimal(m) == Leading(m / 10) + [Digit(m % 10)]
    ensures if m == 0 then Leading(m) == "" else Leading(m) == Decimal(m) != ""
  {
  }

  lemma Regroup(s: string, c: char, t: string)
    ensures (s + [c]) + t == s + ([c] + t)
  {
  }

  function Abs(i: int): nat {
    if i < 0 then -i else i
  }

  /** Writes the next digit in front of those written so far. */
  method WriteDigit(i: int, buf: array<char>, p: nat, bound: nat) returns (rest: int)
    requires 0 < p <= bound < buf.Length
    modifies buf
    ensures buf[p - 1..bound] == [Digit(Abs(i) % 10)] + old(buf[p..bound])
    ensures buf[bound..] == old(buf[bound..])
    ensures Abs(rest) == Abs(i) / 10 && (rest < 0 ==> i < 0) && (rest > 0 ==> i > 0)
  {
    buf[p - 1] := if i < 0 then ('0' as int - Rem10(i)) as char else ('0' as int + Rem10(i)) as char;
    rest := Quot10(i);
  }

  /** The two do-while loops of anytostr: digits are written backwards, from remainders of either sign. */
  method WriteDigits(value: int, buf: array<char>, bound: nat) returns (p: nat)
    requires |Decimal(Abs(value))| + (if value < 0 then 1 else 0) <= bound < buf.Length
    modifies buf
    ensures p <= bound && p >= (if value < 0 then 1 else 0)
    ensures buf[p..bound] == Decimal(Abs(value))
    ensures buf[bound..] == old(buf[bound..])
  {
    hide Decimal, Leading, Digit, Rem10, Quot10;
    ghost var goal := Decimal(Abs(value));
    LastDigit(Abs(value));
    p := bound - 1;
    var i := WriteDigit(value, buf, bound, bound);
    ghost var left, done := Leading(Abs(i)), buf[p..bound];
    while i != 0
      invariant 0 <= p < bound && left == Leading(Abs(i)) && done == buf[p..bound]
      invariant left + done == goal
      invariant buf[bound..] == old(buf[bound..])
      decreases Abs(i)
    {
      LastDigit(Abs(i));
      Regroup(Leading(Abs(i) / 10), Digit(Abs(i) % 10), done);
      assert |goal| == |left| + |done| && |left| > 0;
      i := WriteDigit(i, buf, p, bound);
      p := p - 1;
      left, done := Leading(Abs(i)), buf[p..bound];
    }
    LastDigit(Abs(i));
  }
}
