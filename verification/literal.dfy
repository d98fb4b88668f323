/** Reading a decimal or hexadecimal literal as an exact decimal number.

    A literal is given by its digits and exponent digits, already separated. */
module ExactLiteral {
  import opened Arithmetic
  import opened NgramStore
  import opened DigitArrays
  import opened ExactDecimal

  // Literals of this size, and numbers of this size, never exhaust the arithmetic.
  const MODEST_LITERAL: nat := 0x4000_0000
  const MODEST: nat := 0x100_0000_0000

  predicate Within(n: Number, bound: nat) {
    |n.digits| <= bound && 0 - bound as int <= n.exponent <= bound
  }

  /** All digits in reading order, how many of them follow the point, and the exponent's digits. */
  datatype Literal = Literal(
    negative: bool, hexadecimal: bool, digits: seq<nat>, fractional: nat, exponentNegative: bool, exponentDigits: seq<nat>)
  {
    ghost predicate WellFormed() {
      && fractional <= |digits| && AreDigits(exponentDigits)
      && forall i :: 0 <= i < |digits| ==> digits[i] < Base(hexadecimal)
    }

    ghost predicate Modest() {
      |digits| <= MODEST_LITERAL && Reading(10, exponentDigits) <= MODEST_LITERAL
    }
  }

  function Base(hexadecimal: bool): nat {
    if hexadecimal then 16 else 10
  }

  // The value of digits in reading order.
  ghost function Reading(base: nat, s: seq<nat>): nat {
    if s == [] then 0 else Mul(base, Reading(base, s[..|s| - 1])) + s[|s| - 1]
  }

  ghost function ExponentOf(l: Literal): int {
    WithSign(l.exponentNegative, Reading(10, l.exponentDigits))
  }

  function Pow(base: nat, n: nat): (p: nat)
    requires base > 0
    ensures p >= 1
  {
    if n == 0 then 1 else
      var more := Pow(base, n - 1);
      Positive(base, more);
      base * more
  }

  // Powers of two with any integer exponent.
  function Two(e: int): real {
    if e >= 0 then Pow(2, e) as real else Ratio(1.0, Pow(2, -e) as real)
  }

  /** A decimal literal scales by tens; every hexadecimal fraction digit counts four bits. */
  ghost function LiteralValue(l: Literal): real {
    var c := WithSign(l.negative, Reading(Base(l.hexadecimal), l.digits)) as real;
    if l.hexadecimal then Times(c, Two(ExponentOf(l) - 4 * l.fractional))
    else Times(c, Ten(ExponentOf(l) - l.fractional))
  }

  lemma ReadingMore(base: nat, s: seq<nat>, i: nat)
    requires i < |s|
    ensures Reading(base, s[..i + 1]) == Mul(base, Reading(base, s[..i])) + s[i]
  {
    assert s[..i + 1][..i] == s[..i];
  }

  // ---- The exponent ----

  /** The exponent, or that it does not fit 64 bits; digits after an overflow are only skipped. */
  method ParseExponent(digits: seq<nat>, negative: bool) returns (exponent: int, overflow: bool)
    requires AreDigits(digits)
    ensures overflow <==> Reading(10, digits) > 0x7FFF_FFFF_FFFF_FFFF
    ensures !overflow ==> exponent == WithSign(negative, Reading(10, digits))
  {
    hide Mul;
    var value: nat := 0;
    overflow := false;
    assert digits[..0] == [];
    for i := 0 to |digits|
      invariant overflow <==> Reading(10, digits[..i]) > INT64_MAX
      invariant !overflow ==> value == Reading(10, digits[..i])
    {
      ReadingMore(10, digits, i);
      TenTimes(Reading(10, digits[..i]));
      var digit := digits[i];
      if value > (INT64_MAX - digit) / 10 {
        overflow := true;
      }
      if !overflow {
        value := value * 10 + digit;
      }
    }
    assert digits[..|digits|] == digits;
    exponent := if overflow then 0 else WithSign(negative, value);
  }

  // ---- Coefficients ----

  /** Read hexadecimal digits into a decimal coefficient. */
  method HexCoefficient(digits: seq<nat>, fails: nat -> bool) returns (ok: bool, c: Integer)
    requires forall i :: 0 <= i < |digits| ==> digits[i] < 16
    ensures fresh(c) && fresh(c.digits) && c.Valid()
    ensures ok ==> c.Value() == Reading(16, digits) && c.count <= 1 + 5 * |digits| && (c.count == 1 || c.Value() > 0)
    ensures !ok ==> exists i :: fails(i)
  {
    hide Mul;
    hide ValueOf;
    hide Scale;
    c := new Integer([0]);
    ZeroValue();
    assert digits[..0] == [];
    for i := 0 to |digits|
      invariant fresh(c.digits) && c.Valid() && c.Value() == Reading(16, digits[..i])
      invariant c.count <= 1 + 5 * i && (c.count == 1 || c.Value() > 0)
    {
      ReadingMore(16, digits, i);
      SixteenTimes(c.Value());
      ok := c.Multiply(16, fails(2 * i));
      if !ok {
        return;
      }
      ZeroReads(c);
      ok := c.AddDigit(digits[i], fails(2 * i + 1));
      if !ok {
        return;
      }
    }
    assert digits[..|digits|] == digits;
    ok := true;
  }

  lemma ZeroValue()
    ensures ValueOf([0]) == 0
  {
    NoValue();
    ScaleLaws(0, 0, 0, 0);
    assert [0][..0] == [];
  }

  lemma SixteenTimes(v: nat)
    ensures Mul(16, v) == 16 * v
  {
  }

  function Reversed(s: seq<nat>): (r: seq<nat>)
    ensures |r| == |s| && forall i :: 0 <= i < |s| ==> r[i] == s[|s| - 1 - i]
  {
    if s == [] then [] else [s[|s| - 1]] + Reversed(s[..|s| - 1])
  }

  /** Digits in reading order are the reversed digits of the coefficient. */
  lemma {:induction false} ReadingReversed(s: seq<nat>)
    ensures ValueOf(Reversed(s)) == Reading(10, s)
  {
    hide Mul;
    hide Scale;
    if s == [] {
      NoValue();
    } else {
      var front, last := Reversed(s[..|s| - 1]), s[|s| - 1];
      ReadingReversed(s[..|s| - 1]);
      var r := [last] + front;
      assert Reversed(s) == r;
      ValueSplit(r, 1);
      assert r[..1] == [last] && r[1..] == front;
      LoneDigit(last);
      TenTimes(ValueOf(front));
      ScaleTens(ValueOf(front), 0);
      ScaleLaws(10 * ValueOf(front), 0, 0, 0);
    }
  }

  // Leading zeros do not count.
  lemma {:induction false} LeadingZeros(s: seq<nat>, first: nat)
    requires first <= |s| && forall i :: 0 <= i < first ==> s[i] == 0
    ensures Reading(10, s[first..]) == Reading(10, s)
    decreases |s|
  {
    hide Mul;
    if first == |s| {
      ZeroReading(s);
    } else {
      assert s[first..][..|s| - first - 1] == s[..|s| - 1][first..];
      LeadingZeros(s[..|s| - 1], first);
    }
  }

  lemma {:induction false} ZeroReading(s: seq<nat>)
    requires forall i :: 0 <= i < |s| ==> s[i] == 0
    ensures Reading(10, s) == 0
  {
    hide Mul;
    if s != [] {
      ZeroReading(s[..|s| - 1]);
      TenTimes(0);
    }
  }

  /** Decimal digits become the coefficient, without leading zeros and least significant first. */
  method DecimalCoefficient(digits: seq<nat>, noMemory: bool) returns (ok: bool, c: Integer)
    requires AreDigits(digits) && digits != []
    ensures fresh(c) && fresh(c.digits) && c.Valid()
    ensures ok ==> c.Value() == Reading(10, digits) && c.count <= |digits| && (c.count == 1 || c.Value() > 0)
    ensures !ok ==> noMemory
  {
    hide Mul;
    hide ValueOf;
    hide Scale;
    c := new Integer([0]);
    ZeroValue();
    if noMemory {
      return false, c;
    }
    var first := 0;
    while first < |digits| && digits[first] == 0
      invariant first <= |digits| && forall i :: 0 <= i < first ==> digits[i] == 0
    {
      first := first + 1;
    }
    LeadingZeros(digits, first);
    if first == |digits| {
      ZeroReading(digits);
      return true, c;
    }
    ReadingReversed(digits[first..]);
    c := new Integer(Reversed(digits[first..]));
    ZeroReads(c);
    ok := true;
  }

  /** Multiply by a power of a small factor, one factor at a time. */
  method MultiplyPower(c: Integer, factor: nat, n: nat, fails: nat -> bool) returns (ok: bool)
    requires c.Valid() && 1 <= factor <= 10
    modifies c, c.digits
    ensures c.Valid() && (c.digits == old(c.digits) || fresh(c.digits))
    ensures ok ==> c.Value() == old(c.Value()) * Pow(factor, n) && c.count <= old(c.count) + 4 * n
    ensures !ok ==> exists i :: fails(i)
  {
    hide ValueOf;
    ghost var start := c.Value();
    assert start * Pow(factor, 0) == start;
    for i := 0 to n
      invariant c.Valid() && (c.digits == old(c.digits) || fresh(c.digits))
      invariant c.Value() == start * Pow(factor, i) && c.count <= old(c.count) + 4 * i
    {
      ok := c.Multiply(factor, fails(i));
      if !ok {
        return;
      }
      Regrouped(start, factor, Pow(factor, i));
    }
    ok := true;
  }

  lemma Regrouped(a: nat, f: nat, p: nat)
    ensures f * (a * p) == a * (f * p)
  {
  }

  // ---- Fives and twos ----

  /** Five to the n at ten to the minus n is two to the minus n. */
  lemma {:induction false} FivesAreHalves(n: nat)
    ensures Times(Pow(5, n) as real, Ten(0 - n)) == Two(0 - n)
  {
    hide Times;
    hide Ratio;
    if n == 0 {
      TimesDistributes(1.0, 0.0, 0.0);
      assert Ten(0) == 1.0 && Two(0) == 1.0;
    } else {
      FivesAreHalves(n - 1);
      var five, ten := Pow(5, n - 1) as real, Ten(0 - n);
      TimesIntegers(5, Pow(5, n - 1));
      TenMore(0 - n);
      TwoMore(0 - n);
      // 5x * t == (5x) * t, and x * 10t == 2 * (5x * t)
      FiveTen(five, ten);
      Halved(Times(Pow(5, n) as real, ten), Two(0 - n));
    }
  }

  lemma FiveTen(x: real, t: real)
    ensures Times(x, Times(10.0, t)) == Times(2.0, Times(Times(5.0, x), t))
  {
  }

  lemma Halved(a: real, b: real)
    ensures Times(2.0, a) == Times(2.0, b) ==> a == b
  {
  }

  lemma TwoMore(e: int)
    ensures Two(e + 1) == Times(2.0, Two(e))
  {
    hide Times;
    hide Ratio;
    if e >= 0 {
      TimesIntegers(2, Pow(2, e));
    } else {
      var p := Pow(2, -e - 1) as real;
      assert Pow(2, -e) as real == 2.0 * p;
      HalfOf(p);
      if e == -1 {
        RatioOfOne(1.0);
      }
    }
  }

  lemma HalfOf(p: real)
    requires p > 0.0
    ensures Times(2.0, Ratio(1.0, 2.0 * p)) == Ratio(1.0, p)
  {
  }

  lemma FivesDenote(v: nat, negative: bool, n: nat)
    ensures Times(WithSign(negative, v * Pow(5, n)) as real, Ten(0 - n)) == Times(WithSign(negative, v) as real, Two(0 - n))
  {
    hide Times;
    hide Ten;
    hide Two;
    FivesAreHalves(n);
    var c := WithSign(negative, v);
    SignOut(negative, v, Pow(5, n));
    TimesIntegers(c, Pow(5, n));
    TimesAssociates(c as real, Pow(5, n) as real, Ten(0 - n));
  }

  lemma SignOut(negative: bool, v: nat, p: nat)
    ensures WithSign(negative, v * p) == WithSign(negative, v) * p
  {
    if negative {
      assert (0 - v) * p == 0 - v * p;
    }
  }

  lemma TwosDenote(v: nat, negative: bool, n: nat)
    ensures Times(WithSign(negative, v * Pow(2, n)) as real, Ten(0)) == Times(WithSign(negative, v) as real, Two(n))
  {
    hide Times;
    var c := WithSign(negative, v);
    SignOut(negative, v, Pow(2, n));
    TimesIntegers(c, Pow(2, n));
    assert Ten(0) == 1.0;
    TimesDistributes((c * Pow(2, n)) as real, 0.0, 0.0);
  }

  // ---- What a literal spells ----

  /** The number x that a literal spells, stated by multiplication alone: every fraction digit divides by
      ten or sixteen, and the exponent counts tens of a decimal literal and twos of a hexadecimal one. */
  ghost predicate Spells(l: Literal, x: real) {
    var base := if l.hexadecimal then 16 else 10;
    var radix := if l.hexadecimal then 2 else 10;
    var whole := Reading(base, l.digits);
    var signed: int := if l.negative then 0 - whole else whole;
    var fraction, power := Pow(base, l.fractional), Pow(radix, Reading(10, l.exponentDigits));
    if l.exponentNegative then x * fraction as real * power as real == signed as real
    else x * fraction as real == signed as real * power as real
  }

  /** The value that `Parse` and the grid speak of is what the literal spells. */
  lemma LiteralSpells(l: Literal)
    ensures Spells(l, LiteralValue(l))
  {
    hide Times;
    hide Ten;
    hide Two;
    hide Pow;
    hide Reading;
    var x, f, e: nat := LiteralValue(l), l.fractional, Reading(10, l.exponentDigits);
    var c := WithSign(l.negative, Reading(Base(l.hexadecimal), l.digits)) as real;
    if l.hexadecimal {
      TwosMoved(ExponentOf(l) - 4 * f, 4 * f);
      PowSixteen(f);
      TwosMoved(0 - e, e);
      UnitPowers();
      TwoUp(e);
      var left, power := Pow(16, f) as real, Pow(2, e) as real;
      Unscale(x, c, Two(ExponentOf(l) - 4 * f), left, Two(ExponentOf(l)), power, l.exponentNegative);
    } else {
      TensMoved(ExponentOf(l) - f, f);
      TensMoved(0 - e, e);
      UnitPowers();
      TenUp(e);
      var left, power := Pow(10, f) as real, Pow(10, e) as real;
      Unscale(x, c, Ten(ExponentOf(l) - f), left, Ten(ExponentOf(l)), power, l.exponentNegative);
    }
  }

  // A scaled coefficient, its fraction and its exponent undone by multiplication.
  lemma Unscale(x: real, c: real, scale: real, left: real, between: real, power: real, down: bool)
    requires x == Times(c, scale) && Times(scale, left) == between
    requires if down then Times(between, power) == 1.0 else between == power
    ensures if down then x * left * power == c else x * left == c * power
  {
    hide Times;
    TimesAssociates(c, scale, left);
    if down {
      TimesAssociates(c, between, power);
      TimesDistributes(c, 0.0, 0.0);
    }
    Plain(x, left);
    Plain(Times(x, left), power);
    Plain(c, power);
  }

  lemma Plain(a: real, b: real)
    ensures Times(a, b) == a * b
  {
  }

  lemma UnitPowers()
    ensures Two(0) == 1.0 && Ten(0) == 1.0
  {
  }

  lemma TwoUp(e: nat)
    ensures Two(e) == Pow(2, e) as real
  {
  }

  lemma {:induction false} TenUp(e: nat)
    ensures Ten(e) == Pow(10, e) as real
  {
    if e > 0 {
      TenUp(e - 1);
    }
  }

  lemma {:induction false} PowSixteen(f: nat)
    ensures Pow(16, f) as real == Two(4 * f)
  {
    hide Two;
    if f == 0 {
      UnitPowers();
    } else {
      PowSixteen(f - 1);
      TwoMore(4 * f - 4);
      TwoMore(4 * f - 3);
      TwoMore(4 * f - 2);
      TwoMore(4 * f - 1);
    }
  }

  lemma {:induction false} TwosMoved(e: int, k: nat)
    ensures Times(Two(e), Two(k)) == Two(e + k)
  {
    hide Times;
    hide Two;
    if k == 0 {
      UnitPowers();
      TimesDistributes(Two(e), 0.0, 0.0);
    } else {
      TwosMoved(e, k - 1);
      TwoMore(k - 1);
      TwoMore(e + k - 1);
      TimesAssociates(Two(e), 2.0, Two(k - 1));
      TimesAssociates(2.0, Two(e), Two(k - 1));
    }
  }

  lemma {:induction false} TensMoved(e: int, k: nat)
    ensures Times(Ten(e), Pow(10, k) as real) == Ten(e + k)
  {
    hide Times;
    hide Ten;
    if k == 0 {
      TimesDistributes(Ten(e), 0.0, 0.0);
    } else {
      TensMoved(e, k - 1);
      TenMore(e + k - 1);
      TimesIntegers(10, Pow(10, k - 1));
      TimesAssociates(Ten(e), 10.0, Pow(10, k - 1) as real);
      TimesAssociates(10.0, Ten(e), Pow(10, k - 1) as real);
    }
  }

  /** Digits read from the first to the last, each shifting what was read by one place. */
  lemma ReadingIs(base: nat, s: seq<nat>, d: nat)
    ensures Reading(base, []) == 0 && Reading(base, [d]) == d
    ensures Reading(base, s + [d]) == base * Reading(base, s) + d
  {
    assert (s + [d])[..|s|] == s;
    assert [d][..0] == [];
  }

  /** One hundredth, twelve and a half, a quarter, and a negative number: 1e-2, 12.5, 0x1p-2, -0xa.8p3. */
  lemma LiteralExamples(x: real)
    ensures Spells(Literal(false, false, [1], 0, true, [2]), x) <==> x == 0.01
    ensures Spells(Literal(false, false, [1, 2, 5], 1, false, []), x) <==> x == 12.5
    ensures Spells(Literal(false, true, [1], 0, true, [2]), x) <==> x == 0.25
    ensures Spells(Literal(true, true, [10, 8], 1, false, [3]), x) <==> x == -84.0
  {
    hide Pow;
    hide Reading;
    ShortReadings();
    SmallPowers();
  }

  lemma ShortReadings()
    ensures Reading(10, []) == 0 && Reading(10, [2]) == 2 && Reading(10, [3]) == 3
    ensures Reading(10, [1]) == 1 && Reading(16, [1]) == 1
    ensures Reading(10, [1, 2, 5]) == 125 && Reading(16, [10, 8]) == 168
  {
    hide Reading;
    ReadingIs(10, [], 1);
    ReadingIs(10, [], 2);
    ReadingIs(10, [], 3);
    ReadingIs(16, [], 1);
    ReadingIs(16, [], 10);
    ReadingIs(10, [1], 2);
    ReadingIs(10, [1, 2], 5);
    ReadingIs(16, [10], 8);
    assert [1] + [2] == [1, 2] && [1, 2] + [5] == [1, 2, 5] && [10] + [8] == [10, 8];
  }

  lemma SmallPowers()
    ensures Pow(10, 0) == 1 && Pow(10, 1) == 10 && Pow(10, 2) == 100
    ensures Pow(16, 0) == 1 && Pow(16, 1) == 16
    ensures Pow(2, 0) == 1 && Pow(2, 2) == 4 && Pow(2, 3) == 8
  {
    assert Pow(2, 1) == 2;
    assert Pow(2, 2) == 4;
  }

  // ---- The number ----

  // An exponent on the way does not fit 64 bits, or no normal number denotes the literal.
  ghost predicate Blocked(l: Literal) {
    && Reading(Base(l.hexadecimal), l.digits) != 0
    && (Reading(10, l.exponentDigits) > INT64_MAX || ExponentBlocked(l) || !Representable(LiteralValue(l)))
  }

  ghost predicate ExponentBlocked(l: Literal) {
    if l.hexadecimal then l.fractional > INT64_MAX / 4 || ExponentOf(l) - 4 * l.fractional <= INT64_MIN
    else l.fractional > INT64_MAX || ExponentOf(l) - l.fractional < INT64_MIN
  }

  lemma ZeroReads(c: Integer)
    requires c.Valid()
    ensures c.count == 1 && c.digits[0] == 0 ==> c.Value() == 0
    ensures c.digits[c.count - 1] != 0 ==> c.Value() > 0
  {
    hide ValueOf;
    if c.count == 1 && c.digits[0] == 0 {
      assert c.digits[..c.count] == [0];
      ZeroValue();
    }
    if c.digits[c.count - 1] != 0 {
      ValueAtLeast(c.digits[..c.count]);
    }
  }

  /** The exact value of a literal, normalized; given memory it fails exactly without digits or if blocked. */
  method Parse(l: Literal, noMemory: bool, fails: nat -> bool) returns (ok: bool, n: Number)
    requires l.WellFormed()
    ensures ok ==> n.Normal() && Denotes(n) == LiteralValue(l) && Spells(l, Denotes(n))
    ensures l.digits == [] || Blocked(l) ==> !ok
    ensures !ok ==> l.digits == [] || Blocked(l) || noMemory || exists i :: fails(i)
    ensures !ok ==> l.digits == [] || noMemory || !l.Modest() || exists i :: fails(i)
    ensures ok && l.Modest() ==> Within(n, MODEST)
  {
    hide ValueOf;
    hide Scale;
    hide Denotes;
    hide LiteralValue;
    hide Reading;
    hide Spells;
    LiteralSpells(l);
    ok, n := false, Number([0], 0, false);
    if l.digits == [] {
      return;
    }
    var exponent, overflow := ParseExponent(l.exponentDigits, l.exponentNegative);
    var c: Integer;
    if l.hexadecimal {
      ok, c := HexCoefficient(l.digits, fails);
    } else {
      ok, c := DecimalCoefficient(l.digits, noMemory);
    }
    if !ok {
      return;
    }
    ZeroReads(c);
    if c.count == 1 && c.digits[0] == 0 {
      ZeroLiteral(l, c.digits[..c.count]);
      ok, n := Normalize(c, 0, l.negative);
      return;
    }
    if overflow || l.fractional > INT64_MAX {
      return false, n;
    }
    if l.hexadecimal {
      ok, n := FinishHex(l, c, exponent, fails);
    } else {
      if exponent < INT64_MIN + l.fractional {
        return false, n;
      }
      DecimalDenotes(l, Number(c.digits[..c.count], exponent - l.fractional, l.negative));
      ok, n := Normalize(c, exponent - l.fractional, l.negative);
    }
  }

  method FinishHex(l: Literal, c: Integer, exponent: int, fails: nat -> bool) returns (ok: bool, n: Number)
    requires l.hexadecimal && c.Valid() && c.Value() == Reading(16, l.digits) && exponent == ExponentOf(l)
    requires l.WellFormed() && INT64_MIN <= exponent <= INT64_MAX
    modifies c, c.digits
    ensures ok ==> n.Normal() && Denotes(n) == LiteralValue(l) && !ExponentBlocked(l)
    ensures !ok ==> ExponentBlocked(l) || !Representable(LiteralValue(l)) || exists i :: fails(i)
    ensures l.Modest() && old(c.count) <= 1 + 5 * MODEST_LITERAL ==> if ok then Within(n, MODEST) else exists i :: fails(i)
  {
    hide ValueOf;
    hide Scale;
    hide Denotes;
    hide LiteralValue;
    hide Reading;
    hide Pow;
    n := Number([0], 0, false);
    if l.fractional > INT64_MAX / 4 || exponent < INT64_MIN + l.fractional * 4 {
      return false, n;
    }
    var binary := exponent - l.fractional * 4;
    var decimal := 0;
    if binary < 0 {
      if binary == INT64_MIN {
        return false, n;
      }
      ok := MultiplyPower(c, 5, 0 - binary, fails);
      decimal := binary;
    } else {
      ok := MultiplyPower(c, 2, binary, fails);
    }
    if !ok {
      return;
    }
    HexDenotes(l, Number(c.digits[..c.count], decimal, l.negative));
    ok, n := Normalize(c, decimal, l.negative);
  }

  lemma DecimalDenotes(l: Literal, n: Number)
    requires !l.hexadecimal && ValueOf(n.digits) == Reading(10, l.digits)
    requires n.exponent == ExponentOf(l) - l.fractional && n.negative == l.negative
    ensures Denotes(n) == LiteralValue(l)
  {
  }

  lemma HexDenotes(l: Literal, n: Number)
    requires l.hexadecimal && n.negative == l.negative
    requires var binary := ExponentOf(l) - 4 * l.fractional;
      if binary < 0 then n.exponent == binary && ValueOf(n.digits) == Reading(16, l.digits) * Pow(5, 0 - binary)
      else n.exponent == 0 && ValueOf(n.digits) == Reading(16, l.digits) * Pow(2, binary)
    ensures Denotes(n) == LiteralValue(l)
  {
    hide Times;
    hide Ten;
    hide Two;
    hide Pow;
    hide ValueOf;
    hide Reading;
    var binary := ExponentOf(l) - 4 * l.fractional;
    if binary < 0 {
      FivesDenote(Reading(16, l.digits), l.negative, 0 - binary);
    } else {
      TwosDenote(Reading(16, l.digits), l.negative, binary);
    }
  }

  lemma ZeroLiteral(l: Literal, digits: seq<nat>)
    requires ValueOf(digits) == Reading(Base(l.hexadecimal), l.digits) && |digits| == 1 && digits[0] == 0
    ensures Denotes(Number(digits, 0, l.negative)) == LiteralValue(l)
  {
    hide Times;
    hide Ten;
    hide Two;
    assert digits == [0];
    ZeroValue();
    ZeroDenotes(Number(digits, 0, l.negative));
    TimesDistributes(Two(ExponentOf(l) - 4 * l.fractional), 0.0, 0.0);
    TimesDistributes(Ten(ExponentOf(l) - l.fractional), 0.0, 0.0);
  }
}
