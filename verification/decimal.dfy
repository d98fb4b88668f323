/** Exact decimal numbers: a digit string times a power of ten, with a sign. */
module ExactDecimal {
  import opened Arithmetic
  import opened NgramStore
  import opened DigitArrays

  const INT64_MIN: int := -0x8000_0000_0000_0000

  /** Digits least significant first; the value is their value times ten to the exponent. */
  datatype Number = Number(digits: seq<nat>, exponent: int, negative: bool) {
    ghost predicate WellFormed() {
      digits != [] && AreDigits(digits) && INT64_MIN <= exponent <= INT64_MAX
    }

    predicate IsZero() {
      |digits| == 1 && digits[0] == 0
    }

    // One spelling for every value.
    ghost predicate Canonical() {
      && digits != [] && AreDigits(digits)
      && (if IsZero() then exponent == 0 && !negative else digits[|digits| - 1] != 0 && digits[0] != 0)
    }

    ghost predicate Normal() {
      WellFormed() && Canonical()
    }
  }

  // ---- Denotation ----

  function Ten(e: int): real {
    if e >= 0 then Pow10(e) as real else Ratio(1.0, Pow10(-e) as real)
  }

  function WithSign(negative: bool, v: nat): int {
    if negative then 0 - v else v
  }

  function Signed(n: Number): int {
    WithSign(n.negative, ValueOf(n.digits))
  }

  function Denotes(n: Number): real {
    Times(Signed(n) as real, Ten(n.exponent))
  }

  lemma TenPositive(e: int)
    ensures Ten(e) > 0.0
  {
    if e < 0 {
      RatioPositive(Pow10(-e) as real);
    }
  }

  lemma RatioPositive(d: real)
    requires d > 0.0
    ensures Ratio(1.0, d) > 0.0
  {
  }

  lemma TenMore(e: int)
    ensures Ten(e + 1) == Times(10.0, Ten(e))
  {
    hide Times;
    hide Ratio;
    if e >= 0 {
      TimesIntegers(10, Pow10(e));
    } else {
      var p := Pow10(-e - 1) as real;
      assert Pow10(-e) as real == 10.0 * p;
      TenthOf(p);
      if e == -1 {
        RatioOfOne(1.0);
      }
    }
  }

  lemma TenthOf(p: real)
    requires p > 0.0
    ensures Times(10.0, Ratio(1.0, 10.0 * p)) == Ratio(1.0, p)
  {
  }

  /** What a number denotes, told by its digits: the first digit is the lowest, every further one and
      every step of the exponent counts tenfold. */
  lemma DenotesByDigits(d: nat, s: seq<nat>, e: int, negative: bool)
    ensures Denotes(Number([d], 0, negative)) == if negative then 0.0 - d as real else d as real
    ensures Denotes(Number(s, e + 1, negative)) == 10.0 * Denotes(Number(s, e, negative))
    ensures Denotes(Number([d] + s, e, negative)) == Denotes(Number([d], e, negative)) + 10.0 * Denotes(Number(s, e, negative))
  {
    hide ValueOf;
    hide Times;
    hide Ten;
    hide Scale;
    FirstDigit(d, s);
    FirstDigit(d, []);
    assert [d] + [] == [d];
    NoValue();
    assert Ten(0) == 1.0 by { TenUnit(); }
    TenMore(e);
    var one, rest := WithSign(negative, d) as real, WithSign(negative, ValueOf(s)) as real;
    TimesDistributes(one, 0.0, 0.0);
    TimesTen(rest, Ten(e));
    TimesDistributes(one, 10.0 * rest, Ten(e));
  }

  lemma FirstDigit(d: nat, s: seq<nat>)
    ensures ValueOf([d] + s) == d + 10 * ValueOf(s)
  {
    hide ValueOf;
    hide Scale;
    var r := [d] + s;
    ValueSplit(r, 1);
    assert r[..1] == [d] && r[1..] == s;
    LoneDigit(d);
    ScaleTens(ValueOf(s), 0);
    ScaleLaws(10 * ValueOf(s), 0, 0, 0);
  }

  lemma LoneDigit(d: nat)
    ensures ValueOf([d]) == d
  {
    NoValue();
    ScaleLaws(d, 0, 0, 0);
    assert [d][..0] == [];
  }

  lemma TenUnit()
    ensures Ten(0) == 1.0
  {
  }

  lemma TimesTen(c: real, t: real)
    ensures Times(c, Times(10.0, t)) == 10.0 * Times(c, t) == Times(10.0 * c, t)
  {
  }

  /** Scaling a coefficient up is moving its exponent down. */
  lemma {:induction false} Rescale(c: int, e: int, n: nat)
    ensures Times((c * Pow10(n)) as real, Ten(e - n)) == Times(c as real, Ten(e))
    decreases n
  {
    hide Times;
    hide Ten;
    if n == 0 {
      assert c * Pow10(0) == c;
    } else {
      Rescale(c, e, n - 1);
      var k := c * Pow10(n - 1);
      assert c * Pow10(n) == 10 * k by { TenFold(c, Pow10(n - 1)); }
      TenMore(e - n);
      TimesIntegers(10, k);
      TimesAssociates(10.0, k as real, Ten(e - n));
      TimesAssociates(k as real, 10.0, Ten(e - n));
      TimesAssociates(10.0, k as real, 1.0);
    }
  }

  lemma TenFold(c: int, p: int)
    ensures c * (10 * p) == 10 * (c * p)
  {
  }

  // The coefficient of a number at a lower exponent.
  ghost function Aligned(n: Number, common: int): int
    requires common <= n.exponent
  {
    WithSign(n.negative, Scale(ValueOf(n.digits), n.exponent - common))
  }

  lemma AlignedDenotes(n: Number, common: int)
    requires common <= n.exponent
    ensures Denotes(n) == Times(Aligned(n, common) as real, Ten(common))
  {
    hide Times;
    hide Ten;
    hide ValueOf;
    Rescale(Signed(n), n.exponent, n.exponent - common);
    SignedScale(ValueOf(n.digits), Pow10(n.exponent - common));
  }

  lemma SignedScale(v: nat, p: nat)
    ensures Mul(v, p) == v * p && (0 - v) * p == 0 - v * p
  {
  }

  // ---- Digits at a lower exponent ----

  function ShiftedDigit(n: Number, shift: nat, position: nat): nat {
    if position >= shift && position - shift < |n.digits| then n.digits[position - shift] else 0
  }

  ghost function Shifted(n: Number, shift: nat, length: nat): seq<nat> {
    seq(length, i requires 0 <= i < length => ShiftedDigit(n, shift, i))
  }

  lemma ShiftedMore(n: Number, shift: nat, length: nat)
    ensures Shifted(n, shift, length + 1) == Shifted(n, shift, length) + [ShiftedDigit(n, shift, length)]
  {
  }

  lemma {:induction false} ShiftedZeros(n: Number, shift: nat, length: nat)
    requires length <= shift
    ensures ValueOf(Shifted(n, shift, length)) == 0
  {
    hide Scale;
    if length > 0 {
      ShiftedZeros(n, shift, length - 1);
      ShiftedMore(n, shift, length - 1);
      ValueMore(Shifted(n, shift, length - 1), 0);
      ScaleLaws(0, 0, 0, length - 1);
    }
  }

  lemma {:induction false} ShiftedPart(n: Number, shift: nat, j: nat)
    requires j <= |n.digits|
    ensures ValueOf(Shifted(n, shift, shift + j)) == Scale(ValueOf(n.digits[..j]), shift)
  {
    hide Scale;
    hide ValueOf;
    if j == 0 {
      ShiftedZeros(n, shift, shift);
      NoValue();
      ScaleLaws(0, 0, 0, shift);
      assert n.digits[..0] == [];
    } else {
      ShiftedPart(n, shift, j - 1);
      ShiftedMore(n, shift, shift + j - 1);
      ValueMore(Shifted(n, shift, shift + j - 1), n.digits[j - 1]);
      ValueTake(n.digits, j - 1);
      ScaleLaws(ValueOf(n.digits[..j - 1]), Scale(n.digits[j - 1], j - 1), 0, shift);
      ScaleLaws(n.digits[j - 1], 0, j - 1, shift);
    }
  }

  /** The shifted digits spell the aligned coefficient. */
  lemma {:induction false} ShiftedValue(n: Number, shift: nat, length: nat)
    requires length >= |n.digits| + shift
    ensures ValueOf(Shifted(n, shift, length)) == Scale(ValueOf(n.digits), shift)
    decreases length
  {
    hide Scale;
    hide ValueOf;
    if length == |n.digits| + shift {
      ShiftedPart(n, shift, |n.digits|);
      assert n.digits[..|n.digits|] == n.digits;
    } else {
      ShiftedValue(n, shift, length - 1);
      ShiftedMore(n, shift, length - 1);
      ValueMore(Shifted(n, shift, length - 1), 0);
      ScaleLaws(0, 0, 0, length - 1);
    }
  }

  lemma ShiftedAreDigits(n: Number, shift: nat, length: nat)
    requires AreDigits(n.digits)
    ensures AreDigits(Shifted(n, shift, length))
  {
  }

  // ---- Shifts ----

  function Lower(a: int, b: int): int {
    if a < b then a else b
  }

  // The aligned lengths fit a machine size.
  predicate ShiftsFit(l: Number, r: Number) {
    var common := Lower(l.exponent, r.exponent);
    l.exponent - common + |l.digits| <= SIZE_MAX && r.exponent - common + |r.digits| <= SIZE_MAX
  }

  method Shifts(l: Number, r: Number) returns (ok: bool, leftShift: nat, rightShift: nat)
    ensures ok == ShiftsFit(l, r)
    ensures leftShift == l.exponent - Lower(l.exponent, r.exponent)
    ensures rightShift == r.exponent - Lower(l.exponent, r.exponent)
  {
    var common := Lower(l.exponent, r.exponent);
    leftShift, rightShift := l.exponent - common, r.exponent - common;
    ok := !(leftShift + |l.digits| > SIZE_MAX || rightShift + |r.digits| > SIZE_MAX);
  }

  // ---- Comparison ----

  function Sign(x: int): int {
    if x < 0 then -1 else if x > 0 then 1 else 0
  }

  /** The first difference from the top decides. */
  lemma TopDecides(a: seq<nat>, b: seq<nat>, p: nat)
    requires |a| == |b| && p < |a| && AreDigits(a) && AreDigits(b) && a[p] > b[p] && a[p + 1..] == b[p + 1..]
    ensures ValueOf(a) > ValueOf(b)
  {
    hide Scale;
    hide ValueOf;
    ValueSplit(a, p + 1);
    ValueSplit(b, p + 1);
    ValueTake(a, p);
    ValueTake(b, p);
    ScaleOrdered(b[p], a[p], p);
    ValueBelow(b[..p]);
  }

  /** A longer aligned coefficient without leading zero is larger. */
  lemma LongerIsLarger(l: Number, ls: nat, r: Number, rs: nat)
    requires l.digits != [] && l.digits[|l.digits| - 1] != 0 && AreDigits(r.digits)
    requires |l.digits| + ls > |r.digits| + rs
    ensures Scale(ValueOf(l.digits), ls) > Scale(ValueOf(r.digits), rs)
  {
    hide Mul;
    hide Pow10;
    hide ValueOf;
    ValueAtLeast(l.digits);
    ValueBelow(r.digits);
    ScaleOrdered(Pow10(|l.digits| - 1), ValueOf(l.digits), ls);
    ScaleOrdered(ValueOf(r.digits), Pow10(|r.digits|), rs);
    PowAdd(|l.digits| - 1, ls);
    PowAdd(|r.digits|, rs);
    PowOrdered(|r.digits| + rs, |l.digits| - 1 + ls);
  }

  // The magnitudes at the common exponent.
  ghost function Magnitude(n: Number, common: int): nat
    requires common <= n.exponent
  {
    Scale(ValueOf(n.digits), n.exponent - common)
  }

  lemma ZeroMagnitude(n: Number, common: int)
    requires common <= n.exponent && n.digits != []
    ensures n.IsZero() ==> Magnitude(n, common) == 0
    ensures n.digits[|n.digits| - 1] != 0 ==> Magnitude(n, common) > 0
  {
    hide Mul;
    hide Pow10;
    if n.IsZero() {
      assert n.digits == [0] && n.digits[..0] == [];
      NoValue();
      ScaleLaws(0, 0, 0, 0);
      assert ValueOf(n.digits) == 0;
      ScaleLaws(0, 0, 0, n.exponent - common);
    }
    if n.digits[|n.digits| - 1] != 0 {
      ValueAtLeast(n.digits);
      ScaleOrdered(0, ValueOf(n.digits), n.exponent - common);
      ScaleLaws(0, 0, 0, n.exponent - common);
    }
  }

  /** Compare magnitudes from the top digit down. */
  method CompareMagnitude(l: Number, r: Number) returns (ok: bool, comparison: int)
    requires l.Normal() && r.Normal()
    ensures !ok <==> !l.IsZero() && !r.IsZero() && !ShiftsFit(l, r)
    ensures ok ==> var common := Lower(l.exponent, r.exponent);
      comparison == Sign(Magnitude(l, common) - Magnitude(r, common))
  {
    hide Scale;
    hide ValueOf;
    hide Magnitude;
    ghost var common := Lower(l.exponent, r.exponent);
    ZeroMagnitude(l, common);
    ZeroMagnitude(r, common);
    if l.IsZero() {
      return true, if r.IsZero() then 0 else -1;
    }
    if r.IsZero() {
      return true, 1;
    }
    var leftShift, rightShift;
    ok, leftShift, rightShift := Shifts(l, r);
    if !ok {
      return false, 0;
    }
    var leftLength, rightLength := |l.digits| + leftShift, |r.digits| + rightShift;
    if leftLength != rightLength {
      comparison := if leftLength > rightLength then 1 else -1;
      LengthsDecide(l, leftShift, r, rightShift, common);
      return;
    }
    comparison := CompareDigits(l, leftShift, r, rightShift, leftLength);
    MagnitudeIsShifted(l, leftShift, leftLength, common);
    MagnitudeIsShifted(r, rightShift, rightLength, common);
  }

  lemma LengthsDecide(l: Number, ls: nat, r: Number, rs: nat, common: int)
    requires l.Normal() && r.Normal() && !l.IsZero() && !r.IsZero()
    requires ls == l.exponent - common && rs == r.exponent - common
    ensures |l.digits| + ls > |r.digits| + rs ==> Magnitude(l, common) > Magnitude(r, common)
    ensures |l.digits| + ls < |r.digits| + rs ==> Magnitude(l, common) < Magnitude(r, common)
  {
    hide Scale;
    hide ValueOf;
    if |l.digits| + ls > |r.digits| + rs {
      LongerIsLarger(l, ls, r, rs);
    }
    if |l.digits| + ls < |r.digits| + rs {
      LongerIsLarger(r, rs, l, ls);
    }
  }

  lemma MagnitudeIsShifted(n: Number, shift: nat, length: nat, common: int)
    requires shift == n.exponent - common && length >= |n.digits| + shift
    ensures Magnitude(n, common) == ValueOf(Shifted(n, shift, length))
  {
    hide Scale;
    hide ValueOf;
    ShiftedValue(n, shift, length);
  }

  method CompareDigits(l: Number, ls: nat, r: Number, rs: nat, length: nat) returns (comparison: int)
    requires AreDigits(l.digits) && AreDigits(r.digits)
    ensures comparison == Sign(ValueOf(Shifted(l, ls, length)) - ValueOf(Shifted(r, rs, length)))
  {
    hide ValueOf;
    hide ShiftedDigit;
    ghost var a, b := Shifted(l, ls, length), Shifted(r, rs, length);
    ShiftedAreDigits(l, ls, length);
    ShiftedAreDigits(r, rs, length);
    var position: nat := length;
    while position > 0
      invariant position <= length && a[position..] == b[position..]
    {
      position := position - 1;
      var x, y := ShiftedDigit(l, ls, position), ShiftedDigit(r, rs, position);
      assert a[position] == x && b[position] == y;
      if x != y {
        if x > y {
          TopDecides(a, b, position);
        } else {
          TopDecides(b, a, position);
        }
        return if x > y then 1 else -1;
      }
      assert a[position..] == [x] + a[position + 1..] && b[position..] == [y] + b[position + 1..];
    }
    assert a[0..] == a && b[0..] == b;
    comparison := 0;
  }

  lemma SameOrder(x: int, y: int, t: real)
    requires t > 0.0
    ensures x < y ==> Times(x as real, t) < Times(y as real, t)
    ensures x == y ==> Times(x as real, t) == Times(y as real, t)
  {
    TimesOrdered(x as real, y as real, t);
  }

  // Numbers of one sign that cannot be aligned.
  predicate CompareBlocked(l: Number, r: Number) {
    l.negative == r.negative && !l.IsZero() && !r.IsZero() && !ShiftsFit(l, r)
  }

  /** Compare two exact numbers; it fails exactly if alignment needs too many digits. */
  method Compare(l: Number, r: Number) returns (ok: bool, comparison: int)
    requires l.Normal() && r.Normal()
    ensures !ok <==> CompareBlocked(l, r)
    ensures ok ==> (comparison < 0 <==> Denotes(l) < Denotes(r))
    ensures ok ==> (comparison == 0 <==> Denotes(l) == Denotes(r))
  {
    hide Scale;
    hide ValueOf;
    hide Denotes;
    hide ShiftsFit;
    hide Magnitude;
    ghost var common := Lower(l.exponent, r.exponent);
    Ordered(l, r, common);
    if l.negative != r.negative {
      comparison := if l.negative then -1 else 1;
      return true, comparison;
    }
    var magnitude;
    ok, magnitude := CompareMagnitude(l, r);
    if !ok {
      return false, 0;
    }
    comparison := if l.negative then -magnitude else magnitude;
  }

  lemma Ordered(l: Number, r: Number, common: int)
    requires common <= l.exponent && common <= r.exponent && l.Canonical() && r.Canonical()
    ensures var x, y := WithSign(l.negative, Magnitude(l, common)), WithSign(r.negative, Magnitude(r, common));
      (x < y <==> Denotes(l) < Denotes(r)) && (x == y <==> Denotes(l) == Denotes(r))
    ensures l.negative ==> Magnitude(l, common) > 0
    ensures r.negative ==> Magnitude(r, common) > 0
  {
    hide Scale;
    hide ValueOf;
    hide Denotes;
    hide Times;
    hide Ten;
    AlignedDenotes(l, common);
    AlignedDenotes(r, common);
    TenPositive(common);
    SameOrder(Aligned(l, common), Aligned(r, common), Ten(common));
    SameOrder(Aligned(r, common), Aligned(l, common), Ten(common));
    ZeroMagnitude(l, common);
    ZeroMagnitude(r, common);
  }

  // ---- One spelling for every value ----

  /** Digit strings without leading zeros are determined by their value. */
  lemma DigitsUnique(a: seq<nat>, b: seq<nat>)
    requires AreDigits(a) && AreDigits(b) && a != [] && b != []
    requires a[|a| - 1] != 0 && b[|b| - 1] != 0 && ValueOf(a) == ValueOf(b)
    ensures a == b
  {
    hide ValueOf;
    hide Pow10;
    ValueBelow(a);
    ValueBelow(b);
    ValueAtLeast(a);
    ValueAtLeast(b);
    if |a| < |b| {
      PowOrdered(|a|, |b| - 1);
    } else if |b| < |a| {
      PowOrdered(|b|, |a| - 1);
    } else {
      SameDigits(a, b, |a|);
      assert a[..|a|] == a && b[..|a|] == b;
    }
  }

  lemma {:induction false} SameDigits(a: seq<nat>, b: seq<nat>, n: nat)
    requires AreDigits(a) && AreDigits(b) && |a| == |b| && n <= |a|
    requires ValueOf(a) == ValueOf(b) && a[n..] == b[n..]
    ensures a[..n] == b[..n]
  {
    hide ValueOf;
    if n > 0 {
      var p := n - 1;
      if a[p] > b[p] {
        TopDecides(a, b, p);
      } else if b[p] > a[p] {
        TopDecides(b, a, p);
      }
      assert a[p..] == [a[p]] + a[n..] && b[p..] == [b[p]] + b[n..];
      SameDigits(a, b, p);
      assert a[..n] == a[..p] + [a[p]] && b[..n] == b[..p] + [b[p]];
    }
  }

  /** Canonical numbers that denote the same are the same. */
  lemma CanonicalUnique(l: Number, r: Number)
    requires l.Canonical() && r.Canonical() && Denotes(l) == Denotes(r)
    ensures l == r
  {
    hide Scale;
    hide ValueOf;
    hide Denotes;
    hide Magnitude;
    var common := Lower(l.exponent, r.exponent);
    Ordered(l, r, common);
    ZeroMagnitude(l, common);
    ZeroMagnitude(r, common);
    if !l.IsZero() && !r.IsZero() {
      assert Magnitude(l, common) > 0 && Magnitude(r, common) > 0;
      SameMagnitude(l, r, common);
    }
  }

  lemma SameMagnitude(l: Number, r: Number, common: int)
    requires l.Canonical() && r.Canonical() && !l.IsZero() && !r.IsZero()
    requires common == Lower(l.exponent, r.exponent) && Magnitude(l, common) == Magnitude(r, common)
    ensures l.digits == r.digits && l.exponent == r.exponent
  {
    hide Scale;
    hide ValueOf;
    hide Magnitude;
    var ls, rs := l.exponent - common, r.exponent - common;
    var ll, rl := |l.digits| + ls, |r.digits| + rs;
    var a, b := Shifted(l, ls, ll), Shifted(r, rs, rl);
    MagnitudeIsShifted(l, ls, ll, common);
    MagnitudeIsShifted(r, rs, rl, common);
    DigitsUnique(a, b);
    assert a[0] == ShiftedDigit(l, ls, 0) && b[0] == ShiftedDigit(r, rs, 0);
    assert ls == rs == 0;
    assert forall i :: 0 <= i < ll ==> a[i] == l.digits[i] && b[i] == r.digits[i];
  }

  /** Some normal number denotes x. */
  ghost predicate Representable(x: real) {
    exists n: Number :: n.Normal() && Denotes(n) == x
  }

  // A canonical number whose exponent is out of range cannot be spelled otherwise.
  lemma OutOfRange(n: Number)
    requires n.Canonical() && n.exponent > INT64_MAX
    ensures !Representable(Denotes(n))
  {
    hide Denotes;
    forall m: Number | m.Normal() && Denotes(m) == Denotes(n) ensures false {
      CanonicalUnique(m, n);
    }
  }

  // ---- Normalization ----

  /** Leave the one spelling of the value; it fails exactly if the exponent of that is out of range. */
  method Normalize(coefficient: Integer, exponent: int, negative: bool) returns (ok: bool, n: Number)
    requires coefficient.Valid() && INT64_MIN <= exponent <= INT64_MAX
    modifies coefficient, coefficient.digits
    ensures ok ==> n.Normal() && Denotes(n) == Denotes(old(Number(coefficient.digits[..coefficient.count], exponent, negative)))
    ensures ok ==> |n.digits| <= old(coefficient.count)
    ensures ok ==> n.exponent == 0 || exponent <= n.exponent <= exponent + old(coefficient.count)
    ensures !ok ==> exponent > INT64_MAX - old(coefficient.count)
    ensures ok <==> Representable(Denotes(old(Number(coefficient.digits[..coefficient.count], exponent, negative))))
  {
    hide Scale;
    hide ValueOf;
    hide Denotes;
    ghost var whole := Number(coefficient.digits[..coefficient.count], exponent, negative);
    coefficient.Trim();
    ghost var trimmed := Number(coefficient.digits[..coefficient.count], exponent, negative);
    SameValue(whole, trimmed);
    if coefficient.count == 1 && coefficient.digits[0] == 0 {
      n := Number([0], 0, false);
      assert trimmed.digits == [0];
      ZeroDenotes(trimmed);
      ZeroDenotes(n);
      return true, n;
    }
    ok, n := Shorten(coefficient, exponent, negative);
  }

  // Drop the low zeros of a coefficient that is not zero.
  method Shorten(coefficient: Integer, exponent: int, negative: bool) returns (ok: bool, n: Number)
    requires coefficient.Valid() && INT64_MIN <= exponent <= INT64_MAX
    requires (coefficient.count > 1 || coefficient.digits[0] != 0) && coefficient.digits[coefficient.count - 1] != 0
    modifies coefficient, coefficient.digits
    ensures ok ==> n.Normal() && Denotes(n) == Denotes(old(Number(coefficient.digits[..coefficient.count], exponent, negative)))
    ensures ok ==> |n.digits| <= old(coefficient.count) && exponent <= n.exponent <= exponent + old(coefficient.count)
    ensures !ok ==> exponent > INT64_MAX - old(coefficient.count)
    ensures !ok ==> !Representable(Denotes(old(Number(coefficient.digits[..coefficient.count], exponent, negative))))
  {
    hide Denotes;
    hide Representable;
    ghost var trimmed := Number(coefficient.digits[..coefficient.count], exponent, negative);
    var zeros := LowZeros(coefficient);
    ZerosDropped(trimmed, zeros);
    ghost var short := Number(trimmed.digits[zeros..], exponent + zeros, negative);
    ShortIsCanonical(trimmed, zeros);
    if zeros != 0 {
      if exponent > INT64_MAX - zeros {
        OutOfRange(short);
        return false, Number([0], 0, false);
      }
      DropLow(coefficient, zeros);
    }
    n := Number(coefficient.digits[..coefficient.count], exponent + zeros, negative);
    assert n == short;
    ok := true;
  }

  lemma ShortIsCanonical(n: Number, zeros: nat)
    requires AreDigits(n.digits) && zeros < |n.digits| && n.digits[zeros] != 0 && n.digits[|n.digits| - 1] != 0
    ensures Number(n.digits[zeros..], n.exponent + zeros, n.negative).Canonical()
  {
  }

  method LowZeros(coefficient: Integer) returns (zeros: nat)
    requires coefficient.Valid() && (coefficient.count > 1 || coefficient.digits[0] != 0)
    requires coefficient.count > 1 ==> coefficient.digits[coefficient.count - 1] != 0
    ensures zeros < coefficient.count && coefficient.digits[zeros] != 0
    ensures forall i :: 0 <= i < zeros ==> coefficient.digits[i] == 0
  {
    zeros := 0;
    while zeros < coefficient.count - 1 && coefficient.digits[zeros] == 0
      invariant zeros <= coefficient.count - 1 && forall i :: 0 <= i < zeros ==> coefficient.digits[i] == 0
    {
      zeros := zeros + 1;
    }
  }

  // Move the digits down over their lowest zeros.
  method DropLow(coefficient: Integer, zeros: nat)
    requires coefficient.Valid() && zeros < coefficient.count
    modifies coefficient`count, coefficient.digits
    ensures coefficient.Valid()
    ensures coefficient.digits[..coefficient.count] == old(coefficient.digits[..coefficient.count])[zeros..]
  {
    var kept := coefficient.count - zeros;
    ghost var before := coefficient.digits[..coefficient.count];
    var digits := coefficient.digits;
    forall i | 0 <= i < kept {
      digits[i] := digits[i + zeros];
    }
    assert digits[..kept] == before[zeros..];
    coefficient.count := kept;
  }

  lemma SameValue(a: Number, b: Number)
    requires ValueOf(a.digits) == ValueOf(b.digits) && a.exponent == b.exponent && a.negative == b.negative
    ensures Denotes(a) == Denotes(b)
  {
  }

  lemma ZeroDenotes(n: Number)
    requires n.digits == [0]
    ensures Denotes(n) == 0.0
  {
    hide Times;
    hide Ten;
    ScaleLaws(0, 0, 0, 0);
    NoValue();
    assert n.digits[..0] == [];
    TimesDistributes(Ten(n.exponent), 0.0, 0.0);
  }

  lemma ZerosDropped(n: Number, zeros: nat)
    requires zeros <= |n.digits| && forall i :: 0 <= i < zeros ==> n.digits[i] == 0
    ensures Denotes(Number(n.digits[zeros..], n.exponent + zeros, n.negative)) == Denotes(n)
  {
    hide Scale;
    hide ValueOf;
    hide Times;
    hide Ten;
    hide Pow10;
    ValueSplit(n.digits, zeros);
    DropZeros(n.digits[..zeros], 0);
    NoValue();
    assert n.digits[..zeros][..0] == [];
    var kept := Number(n.digits[zeros..], n.exponent + zeros, n.negative);
    AlignedDenotes(kept, n.exponent);
  }

  // ---- Addition ----

  // One column of an addition.
  lemma AddColumn(va: nat, vb: nat, vc: nat, x: nat, y: nat, carry: nat, n: nat)
    requires vc + Scale(carry, n) == va + vb
    ensures var value := x + y + carry;
      vc + Scale(value % 10, n) + Scale(value / 10, n + 1) == (va + Scale(x, n)) + (vb + Scale(y, n))
  {
    hide Scale;
    var value := x + y + carry;
    ScaleTens(value / 10, n);
    ScaleAdds(value % 10, 10 * (value / 10), n);
    ScaleAdds(x + y, carry, n);
    ScaleAdds(x, y, n);
  }

  lemma AddDigits(a: seq<nat>, b: seq<nat>, c: seq<nat>, x: nat, y: nat, carry: nat)
    requires |a| == |b| == |c| && ValueOf(c) + Scale(carry, |c|) == ValueOf(a) + ValueOf(b)
    ensures var value := x + y + carry;
      ValueOf(c + [value % 10]) + Scale(value / 10, |c| + 1) == ValueOf(a + [x]) + ValueOf(b + [y])
  {
    hide Scale;
    hide ValueOf;
    AddColumn(ValueOf(a), ValueOf(b), ValueOf(c), x, y, carry, |c|);
    ValueMore(c, (x + y + carry) % 10);
    ValueMore(a, x);
    ValueMore(b, y);
  }

  /** Add aligned digits with carry. */
  method AddLoop(l: Number, ls: nat, r: Number, rs: nat, length: nat, out: array<nat>) returns (carry: nat)
    requires AreDigits(l.digits) && AreDigits(r.digits) && out.Length >= length
    modifies out
    ensures carry <= 1 && AreDigits(out[..length])
    ensures ValueOf(out[..length]) + Scale(carry, length)
      == ValueOf(Shifted(l, ls, length)) + ValueOf(Shifted(r, rs, length))
  {
    hide Scale;
    hide ValueOf;
    hide ShiftedDigit;
    carry := 0;
    Nothing(l, ls, r, rs);
    assert out[..0] == [];
    for i := 0 to length
      invariant carry <= 1 && AreDigits(out[..i])
      invariant ValueOf(out[..i]) + Scale(carry, i) == ValueOf(Shifted(l, ls, i)) + ValueOf(Shifted(r, rs, i))
    {
      var x, y := ShiftedDigit(l, ls, i), ShiftedDigit(r, rs, i);
      OneDigit(l, ls, i);
      OneDigit(r, rs, i);
      var value := x + y + carry;
      ghost var done := out[..i];
      out[i] := value % 10;
      assert out[..i + 1] == done + [value % 10];
      ShiftedMore(l, ls, i);
      ShiftedMore(r, rs, i);
      AddDigits(Shifted(l, ls, i), Shifted(r, rs, i), done, x, y, carry);
      carry := value / 10;
    }
  }

  lemma OneDigit(n: Number, shift: nat, i: nat)
    requires AreDigits(n.digits)
    ensures ShiftedDigit(n, shift, i) < 10
  {
  }

  lemma Nothing(l: Number, ls: nat, r: Number, rs: nat)
    ensures ValueOf([]) + Scale(0, 0) == ValueOf(Shifted(l, ls, 0)) + ValueOf(Shifted(r, rs, 0))
  {
  }

  // One column of a subtraction.
  lemma BorrowColumn(va: nat, vb: nat, vc: nat, x: nat, y: nat, borrow: nat, digit: nat, more: nat, n: nat)
    requires vc + vb == va + Scale(borrow, n) && digit + y + borrow == x + 10 * more
    ensures (vc + Scale(digit, n)) + (vb + Scale(y, n)) == va + Scale(x, n) + Scale(more, n + 1)
  {
    hide Scale;
    ScaleTens(more, n);
    ScaleAdds(digit + y, borrow, n);
    ScaleAdds(digit, y, n);
    ScaleAdds(x, 10 * more, n);
  }

  lemma BorrowDigits(a: seq<nat>, b: seq<nat>, c: seq<nat>, x: nat, y: nat, borrow: nat, digit: nat, more: nat)
    requires |a| == |b| == |c| && ValueOf(c) + ValueOf(b) == ValueOf(a) + Scale(borrow, |c|)
    requires digit + y + borrow == x + 10 * more
    ensures ValueOf(c + [digit]) + ValueOf(b + [y]) == ValueOf(a + [x]) + Scale(more, |c| + 1)
  {
    hide Scale;
    hide ValueOf;
    BorrowColumn(ValueOf(a), ValueOf(b), ValueOf(c), x, y, borrow, digit, more, |c|);
    ValueMore(a, x);
    ValueMore(b, y);
    ValueMore(c, digit);
  }

  /** Subtract aligned digits with borrow; none is left if the minuend is at least the subtrahend. */
  method SubtractLoop(l: Number, ls: nat, s: Number, ss: nat, length: nat, out: array<nat>)
    requires AreDigits(l.digits) && AreDigits(s.digits) && out.Length >= length
    requires ValueOf(Shifted(l, ls, length)) >= ValueOf(Shifted(s, ss, length))
    modifies out
    ensures AreDigits(out[..length])
    ensures ValueOf(out[..length]) == ValueOf(Shifted(l, ls, length)) - ValueOf(Shifted(s, ss, length))
  {
    hide Scale;
    hide ValueOf;
    hide ShiftedDigit;
    var borrow := 0;
    Nothing(l, ls, s, ss);
    NoValue();
    ScaleLaws(0, 0, 0, 0);
    assert out[..0] == [];
    for i := 0 to length
      invariant 0 <= borrow <= 1 && AreDigits(out[..i])
      invariant ValueOf(out[..i]) + ValueOf(Shifted(s, ss, i)) == ValueOf(Shifted(l, ls, i)) + Scale(borrow, i)
    {
      var x: int, y: int := ShiftedDigit(l, ls, i), ShiftedDigit(s, ss, i);
      OneDigit(l, ls, i);
      OneDigit(s, ss, i);
      var value: int := x - y - borrow;
      var more := if value < 0 then 1 else 0;
      var digit := value + if value < 0 then 10 else 0;
      ghost var done := out[..i];
      out[i] := digit;
      assert out[..i + 1] == done + [digit];
      ShiftedMore(l, ls, i);
      ShiftedMore(s, ss, i);
      BorrowDigits(Shifted(l, ls, i), Shifted(s, ss, i), done, x, y, borrow, digit, more);
      borrow := more;
    }
    ValueBelow(out[..length]);
    ScaleOne(length);
    ScaleLaws(0, 0, 0, length);
  }

  // The sum needs an alignment whose result fits.
  predicate SumFits(l: Number, r: Number) {
    var common := Lower(l.exponent, r.exponent);
    ShiftsFit(l, r) && l.exponent - common + |l.digits| < SIZE_MAX && r.exponent - common + |r.digits| < SIZE_MAX
  }

  /** The sum of nonzero numbers cannot be aligned, or has no normal number. */
  ghost predicate AddBlocked(l: Number, r: Number) {
    !l.IsZero() && !r.IsZero() && (!SumFits(l, r) || !Representable(Denotes(l) + Denotes(r)))
  }

  /** The exact sum, normalized. */
  method Add(l: Number, r: Number, noMemory: bool) returns (ok: bool, n: Number)
    requires l.Normal() && r.Normal()
    ensures ok ==> n.Normal() && Denotes(n) == Denotes(l) + Denotes(r)
    ensures ok ==> |n.digits| <= SumLength(l, r)
    ensures ok ==> n.exponent == 0 || Lower(l.exponent, r.exponent) <= n.exponent <= Lower(l.exponent, r.exponent) + SumLength(l, r)
    ensures !ok ==> noMemory || !SumFits(l, r) || Lower(l.exponent, r.exponent) > INT64_MAX - SumLength(l, r)
    ensures !ok <==> noMemory || AddBlocked(l, r)
  {
    hide Scale;
    hide ValueOf;
    hide Denotes;
    hide Magnitude;
    n := Number([0], 0, false);
    ZeroIs(l);
    ZeroIs(r);
    if noMemory {
      return false, n;
    }
    if l.IsZero() {
      return true, r;
    }
    if r.IsZero() {
      return true, l;
    }
    var leftShift, rightShift;
    ok, leftShift, rightShift := Shifts(l, r);
    if !ok {
      return;
    }
    var leftLength, rightLength := |l.digits| + leftShift, |r.digits| + rightShift;
    var length := if leftLength > rightLength then leftLength else rightLength;
    if length >= SIZE_MAX {
      return false, n;
    }
    var exponent := Lower(l.exponent, r.exponent);
    var out := new nat[length + 1];
    var count, negative := length, l.negative;
    MagnitudeIsShifted(l, leftShift, length, exponent);
    MagnitudeIsShifted(r, rightShift, length, exponent);
    if l.negative == r.negative {
      var carry := AddLoop(l, leftShift, r, rightShift, length, out);
      CarryOut(out[..length], carry);
      if carry != 0 {
        ghost var done := out[..length];
        out[count] := carry;
        assert out[..length + 1] == done + [carry];
        count := count + 1;
      }
    } else {
      var compared, comparison := CompareMagnitude(l, r);
      if comparison >= 0 {
        SubtractLoop(l, leftShift, r, rightShift, length, out);
      } else {
        SubtractLoop(r, rightShift, l, leftShift, length, out);
        negative := r.negative;
      }
    }
    SumDenotes(l, r, Number(out[..count], exponent, negative), exponent);
    var coefficient := new Integer(out[..count]);
    ok, n := Normalize(coefficient, exponent, negative);
  }

  function SumLength(l: Number, r: Number): int {
    var common := Lower(l.exponent, r.exponent);
    var a, b := |l.digits| + l.exponent - common, |r.digits| + r.exponent - common;
    (if a > b then a else b) + 1
  }

  lemma ZeroIs(n: Number)
    ensures n.IsZero() ==> Denotes(n) == 0.0
  {
    hide Denotes;
    if n.IsZero() {
      assert n.digits == [0];
      ZeroDenotes(n);
    }
  }

  lemma CarryOut(s: seq<nat>, carry: nat)
    requires AreDigits(s) && carry <= 1
    ensures carry == 0 ==> ValueOf(s) == ValueOf(s) + Scale(carry, |s|)
    ensures ValueOf(s + [carry]) == ValueOf(s) + Scale(carry, |s|) && AreDigits(s + [carry])
  {
    hide Scale;
    ValueMore(s, carry);
    ScaleLaws(0, 0, 0, |s|);
  }

  lemma SumDenotes(l: Number, r: Number, n: Number, common: int)
    requires common <= l.exponent && common <= r.exponent && n.exponent == common
    requires WithSign(n.negative, ValueOf(n.digits))
      == WithSign(l.negative, Magnitude(l, common)) + WithSign(r.negative, Magnitude(r, common))
    ensures Denotes(n) == Denotes(l) + Denotes(r)
  {
    hide Scale;
    hide ValueOf;
    hide Times;
    hide Ten;
    AlignedDenotes(l, common);
    AlignedDenotes(r, common);
    TimesDistributes(Aligned(l, common) as real, Aligned(r, common) as real, Ten(common));
  }

  // ---- Multiples ----

  /** The exact multiple, normalized. */
  method Multiple(n: Number, factor: nat, noMemory: bool) returns (ok: bool, product: Number)
    requires n.Normal() && factor <= 10000
    ensures ok ==> product.Normal() && Denotes(product) == Times(factor as real, Denotes(n))
    ensures ok ==> |product.digits| <= |n.digits| + 4
    ensures ok ==> product.exponent == 0 || n.exponent <= product.exponent <= n.exponent + |n.digits| + 4
    ensures !ok ==> noMemory || n.exponent > INT64_MAX - |n.digits| - 4
    ensures !ok <==> noMemory || !Representable(Times(factor as real, Denotes(n)))
  {
    hide Scale;
    hide ValueOf;
    hide Denotes;
    product := Number([0], 0, false);
    if noMemory {
      return false, product;
    }
    var coefficient := new Integer(n.digits);
    ok := coefficient.Multiply(factor, noMemory);
    if !ok {
      return;
    }
    MultipleDenotes(n, factor, Number(coefficient.digits[..coefficient.count], n.exponent, n.negative));
    ok, product := Normalize(coefficient, n.exponent, n.negative);
  }

  lemma MultipleDenotes(n: Number, factor: nat, product: Number)
    requires ValueOf(product.digits) == factor * ValueOf(n.digits)
    requires product.exponent == n.exponent && product.negative == n.negative
    ensures Denotes(product) == Times(factor as real, Denotes(n))
  {
    hide ValueOf;
    hide Times;
    hide Ten;
    SignedProduct(factor, ValueOf(n.digits));
    TimesIntegers(factor, Signed(n));
    TimesAssociates(factor as real, Signed(n) as real, Ten(n.exponent));
  }

  lemma SignedProduct(a: nat, v: nat)
    ensures a * (0 - v) == 0 - a * v
  {
  }
}
