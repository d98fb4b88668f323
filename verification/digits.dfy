/** Unbounded naturals as arrays of decimal digits, least significant first, changed in place. */
module DigitArrays {

  function Pow10(n: nat): (p: nat)
    ensures p >= 1
  {
    if n == 0 then 1 else 10 * Pow10(n - 1)
  }

  function Mul(a: nat, b: nat): nat {
    a * b
  }

  // d times ten to the n.
  function Scale(d: nat, n: nat): nat {
    Mul(d, Pow10(n))
  }

  function ValueOf(s: seq<nat>): nat {
    if s == [] then 0 else ValueOf(s[..|s| - 1]) + Scale(s[|s| - 1], |s| - 1)
  }

  ghost predicate AreDigits(s: seq<nat>) {
    forall i :: 0 <= i < |s| ==> s[i] < 10
  }

  // ---- Laws of scaling ----

  lemma MulLaws(a: nat, b: nat, c: nat)
    ensures Mul(a + b, c) == Mul(a, c) + Mul(b, c) && Mul(c, a + b) == Mul(c, a) + Mul(c, b)
    ensures Mul(Mul(a, b), c) == Mul(a, Mul(b, c)) && Mul(a, b) == Mul(b, a)
    ensures Mul(0, a) == 0 && Mul(1, a) == a
  {
  }

  lemma MulOrdered(a: nat, b: nat, c: nat)
    requires a <= b
    ensures Mul(a, c) <= Mul(b, c)
    ensures a < b && c > 0 ==> Mul(a, c) + c <= Mul(b, c)
  {
    if a < b {
      MulLaws(a, b - a, c);
      MulLaws(1, b - a - 1, c);
    }
  }

  lemma {:induction false} PowAdd(a: nat, b: nat)
    ensures Pow10(a + b) == Mul(Pow10(a), Pow10(b))
  {
    hide Mul;
    if b == 0 {
      MulLaws(Pow10(a), 1, 0);
    } else {
      PowAdd(a, b - 1);
      TenTimes(Pow10(b - 1));
      TenTimes(Pow10(a + b - 1));
      MulLaws(10, 0, 0);
      MulLaws(Pow10(a), 10, Pow10(b - 1));
      MulLaws(10, Pow10(a), Pow10(b - 1));
    }
  }

  lemma TenTimes(p: nat)
    ensures Mul(10, p) == 10 * p
  {
  }

  lemma ScaleLaws(a: nat, b: nat, m: nat, n: nat)
    ensures Scale(a + b, n) == Scale(a, n) + Scale(b, n)
    ensures Scale(Scale(a, m), n) == Scale(a, m + n)
    ensures Scale(Mul(a, b), n) == Mul(a, Scale(b, n)) && Scale(0, n) == 0 && Scale(a, 0) == a
  {
    hide Mul;
    MulLaws(a, b, Pow10(n));
    PowAdd(m, n);
    MulLaws(a, Pow10(m), Pow10(n));
    MulLaws(0, a, Pow10(n));
    MulLaws(1, a, 1);
  }

  lemma ScaleAdds(a: nat, b: nat, n: nat)
    ensures Scale(a + b, n) == Scale(a, n) + Scale(b, n)
  {
    hide Mul;
    MulLaws(a, b, Pow10(n));
  }

  lemma ScaleTens(q: nat, n: nat)
    ensures Scale(10 * q, n) == Scale(q, n + 1)
  {
    hide Mul;
    TenTimes(q);
    TenTimes(Pow10(n));
    MulLaws(10, q, Pow10(n));
    MulLaws(q, 10, Pow10(n));
  }

  lemma ScaleOrdered(a: nat, b: nat, n: nat)
    requires a <= b
    ensures Scale(a, n) <= Scale(b, n)
    ensures a < b ==> Scale(a, n) + Pow10(n) <= Scale(b, n)
  {
    hide Mul;
    MulOrdered(a, b, Pow10(n));
  }

  lemma {:induction false} PowOrdered(a: nat, b: nat)
    requires a <= b
    ensures Pow10(a) <= Pow10(b)
  {
    if a < b {
      PowOrdered(a, b - 1);
    }
  }

  // ---- Laws of digit strings ----

  lemma ValueMore(s: seq<nat>, d: nat)
    ensures ValueOf(s + [d]) == ValueOf(s) + Scale(d, |s|)
  {
    assert (s + [d])[..|s|] == s;
  }

  lemma ValueTake(s: seq<nat>, i: nat)
    requires i < |s|
    ensures ValueOf(s[..i + 1]) == ValueOf(s[..i]) + Scale(s[i], i)
  {
    assert s[..i + 1][..i] == s[..i];
  }

  lemma NoValue()
    ensures ValueOf([]) == 0
  {
  }

  /** The digits from position p on count in units of ten to the p. */
  lemma {:induction false} ValueSplit(s: seq<nat>, p: nat)
    requires p <= |s|
    ensures ValueOf(s) == ValueOf(s[..p]) + Scale(ValueOf(s[p..]), p)
  {
    hide Scale;
    hide ValueOf;
    if p == |s| {
      assert s[..p] == s;
      NoValue();
      ScaleLaws(0, 0, 0, p);
    } else {
      var front, last := s[..|s| - 1], s[|s| - 1];
      ValueSplit(front, p);
      assert front[..p] == s[..p] && s[p..] == front[p..] + [last];
      ValueMore(front[p..], last);
      assert s == front + [last];
      ValueMore(front, last);
      ScaleLaws(ValueOf(front[p..]), Scale(last, |front| - p), 0, p);
      ScaleLaws(last, 0, |front| - p, p);
    }
  }

  lemma {:induction false} ValueBelow(s: seq<nat>)
    requires AreDigits(s)
    ensures ValueOf(s) < Pow10(|s|)
  {
    hide Scale;
    if s != [] {
      ValueBelow(s[..|s| - 1]);
      ScaleOrdered(s[|s| - 1], 10, |s| - 1);
      ScaleTens(1, |s| - 1);
      ScaleOne(|s|);
    }
  }

  lemma ScaleOne(n: nat)
    ensures Scale(1, n) == Pow10(n)
  {
  }

  /** A digit string whose top digit is not zero has the size its length says. */
  lemma ValueAtLeast(s: seq<nat>)
    requires s != [] && s[|s| - 1] != 0
    ensures ValueOf(s) >= Pow10(|s| - 1)
  {
    hide Scale;
    ScaleOne(|s| - 1);
    ScaleOrdered(1, s[|s| - 1], |s| - 1);
  }

  lemma {:induction false} DropZeros(s: seq<nat>, n: nat)
    requires n <= |s| && forall i :: n <= i < |s| ==> s[i] == 0
    ensures ValueOf(s[..n]) == ValueOf(s)
  {
    if n == |s| {
      assert s[..n] == s;
    } else {
      DropZeros(s[..|s| - 1], n);
      ScaleLaws(0, 0, 0, |s| - 1);
      assert s[..|s| - 1][..n] == s[..n];
    }
  }

  // ---- Steps of the loops, on values ----

  lemma CarryBound(d: nat, factor: nat, carry: nat)
    requires d < 10 && factor <= 10000 && carry < 10000
    ensures (Mul(d, factor) + carry) / 10 < 10000
  {
    MulOrdered(d, 9, factor);
  }

  lemma MultiplyStep(done: seq<nat>, before: seq<nat>, i: nat, factor: nat, carry: nat)
    requires |done| == i < |before|
    requires ValueOf(done) + Scale(carry, i) == Mul(factor, ValueOf(before[..i]))
    ensures var value := Mul(before[i], factor) + carry;
      ValueOf(done + [value % 10]) + Scale(value / 10, i + 1) == Mul(factor, ValueOf(before[..i + 1]))
  {
    hide ValueOf;
    hide Scale;
    hide Mul;
    var product := Mul(before[i], factor);
    var value := product + carry;
    CarryStep(done, value);
    ValueTake(before, i);
    ScaleLaws(product, carry, 0, i);
    MulLaws(ValueOf(before[..i]), Scale(before[i], i), factor);
    MulLaws(before[i], factor, 0);
    ScaleLaws(factor, before[i], 0, i);
  }

  lemma CarryStep(done: seq<nat>, carry: nat)
    ensures ValueOf(done + [carry % 10]) + Scale(carry / 10, |done| + 1) == ValueOf(done) + Scale(carry, |done|)
  {
    hide ValueOf;
    hide Scale;
    ValueMore(done, carry % 10);
    ScaleTens(carry / 10, |done|);
    ScaleLaws(carry % 10, 10 * (carry / 10), 0, |done|);
  }

  lemma NothingMultiplied(factor: nat)
    ensures ValueOf([]) + Scale(0, 0) == Mul(factor, ValueOf([]))
  {
  }

  lemma AddStep(done: seq<nat>, before: seq<nat>, i: nat, digit: nat, carry: nat)
    requires |done| == i < |before| && ValueOf(done) + Scale(carry, i) == ValueOf(before[..i]) + digit
    ensures var value := before[i] + carry;
      ValueOf(done + [value % 10]) + Scale(value / 10, i + 1) == ValueOf(before[..i + 1]) + digit
  {
    hide ValueOf;
    hide Scale;
    CarryStep(done, before[i] + carry);
    ValueTake(before, i);
    ScaleLaws(before[i], carry, 0, i);
  }

  // ---- Buffers ----

  class Integer {
    var digits: array<nat>
    var count: nat

    ghost predicate Valid()
      reads this, digits
    {
      1 <= count <= digits.Length && AreDigits(digits[..count])
    }

    ghost function Value(): nat
      reads this, digits
      requires count <= digits.Length
    {
      ValueOf(digits[..count])
    }

    constructor (s: seq<nat>)
      requires s != [] && AreDigits(s)
      ensures Valid() && fresh(digits) && digits[..count] == s
    {
      var a := new nat[|s|];
      forall i | 0 <= i < |s| {
        a[i] := s[i];
      }
      digits, count := a, |s|;
      new;
      assert digits[..count] == s;
    }

    /** Make room; the digits stay, possibly in a larger array. */
    method Reserve(capacity: nat, noMemory: bool) returns (ok: bool)
      requires count <= digits.Length
      modifies `digits
      ensures count <= digits.Length && digits[..count] == old(digits[..count])
      ensures ok ==> digits.Length >= capacity
      ensures !ok ==> noMemory && digits == old(digits)
      ensures digits == old(digits) || fresh(digits)
    {
      if capacity <= digits.Length {
        return true;
      }
      if noMemory {
        return false;
      }
      var grown := new nat[capacity];
      var n := digits.Length;
      forall i | 0 <= i < n {
        grown[i] := digits[i];
      }
      assert grown[..count] == digits[..count];
      digits := grown;
      ok := true;
    }

    /** Multiply in place by a factor of at most 10000; four more digits always suffice. */
    method Multiply(factor: nat, noMemory: bool) returns (ok: bool)
      requires Valid() && factor <= 10000
      modifies this, digits
      ensures Valid() && (digits == old(digits) || fresh(digits))
      ensures ok ==> Value() == factor * old(Value()) && count <= old(count) + 4
      ensures ok ==> count == 1 || digits[count - 1] != 0
      ensures !ok ==> noMemory && Value() == old(Value())
    {
      hide Scale;
      hide ValueOf;
      ok := Reserve(count + 4, noMemory);
      if !ok {
        return;
      }
      var carry := MultiplyDigits(factor);
      AppendCarry(carry, 4);
      Trim();
    }

    // One pass over the digits; the carry counts in units above the last digit.
    method MultiplyDigits(factor: nat) returns (carry: nat)
      requires Valid() && factor <= 10000
      modifies digits
      ensures Valid() && carry < 10000
      ensures Value() + Scale(carry, count) == Mul(factor, old(Value()))
    {
      hide Scale;
      hide Mul;
      hide ValueOf;
      ghost var before := digits[..count];
      carry := 0;
      NothingMultiplied(factor);
      assert digits[..0] == [] && before[..0] == [];
      for i := 0 to count
        invariant carry < 10000
        invariant AreDigits(digits[..i]) && forall j :: i <= j < count ==> digits[j] == before[j]
        invariant ValueOf(digits[..i]) + Scale(carry, i) == Mul(factor, ValueOf(before[..i]))
      {
        var value := Mul(digits[i], factor) + carry;
        CarryBound(digits[i], factor, carry);
        MultiplyStep(digits[..i], before, i, factor, carry);
        SetDigit(i, value % 10);
        carry := value / 10;
      }
      assert before[..count] == before;
    }

    // Write one digit; those below and above stay.
    method SetDigit(i: nat, d: nat)
      requires i < digits.Length
      modifies digits
      ensures digits[..i + 1] == old(digits[..i]) + [d]
      ensures forall j :: i < j < digits.Length ==> digits[j] == old(digits[j])
    {
      digits[i] := d;
    }

    /** Append the digits of a carry; as many as it has must be reserved. */
    method AppendCarry(carry0: nat, room: nat)
      requires Valid() && carry0 < Pow10(room) && digits.Length >= count + room
      modifies `count, digits
      ensures Valid() && Value() == old(Value()) + Scale(carry0, old(count)) && count <= old(count) + room
    {
      hide Scale;
      hide ValueOf;
      var carry: nat := carry0;
      ghost var left: nat := room;
      while carry != 0
        invariant count + left == old(count) + room && Valid() && digits.Length >= count + left
        invariant carry < Pow10(left)
        invariant Value() + Scale(carry, count) == old(Value()) + Scale(carry0, old(count))
        decreases carry
      {
        CarryStep(digits[..count], carry);
        SetDigit(count, carry % 10);
        count := count + 1;
        carry, left := carry / 10, left - 1;
      }
      ScaleLaws(0, 0, 0, count);
    }

    /** Drop leading zeros, but not the last digit. */
    method Trim()
      requires Valid()
      modifies `count
      ensures Valid() && Value() == old(Value()) && count <= old(count)
      ensures count == 1 || digits[count - 1] != 0
    {
      hide Scale;
      hide ValueOf;
      ghost var whole := digits[..count];
      while count > 1 && digits[count - 1] == 0
        invariant 1 <= count <= |whole| && |whole| == old(count) && digits[..|whole|] == whole
        invariant forall i :: count <= i < |whole| ==> whole[i] == 0
      {
        count := count - 1;
      }
      DropZeros(whole, count);
      assert whole[..count] == digits[..count];
    }

    /** Add a decimal or hexadecimal digit in place; one more digit suffices. */
    method AddDigit(digit: nat, noMemory: bool) returns (ok: bool)
      requires Valid() && digit < 16
      modifies this, digits
      ensures Valid() && (digits == old(digits) || fresh(digits))
      ensures ok ==> Value() == old(Value()) + digit && count <= old(count) + 1
      ensures ok ==> count == old(count) || Value() > 0
      ensures !ok ==> noMemory && Value() == old(Value())
    {
      hide Scale;
      hide ValueOf;
      ok := Reserve(count + 1, noMemory);
      if !ok {
        return;
      }
      var carry := AddToDigits(digit);
      if carry != 0 {
        SmallCarry(digits[..count], carry);
        SetDigit(count, carry);
        count := count + 1;
      } else {
        ScaleLaws(0, 0, 0, count);
      }
    }

    // Add from the last digit on, as far as there is a carry.
    method AddToDigits(digit: nat) returns (carry: nat)
      requires Valid() && digit < 16
      modifies digits
      ensures Valid() && carry < 10 && (digit == 0 ==> carry == 0)
      ensures Value() + Scale(carry, count) == old(Value()) + digit
    {
      hide Scale;
      hide ValueOf;
      ghost var before := digits[..count];
      var i: nat;
      carry, i := digit, 0;
      NothingAdded(digit);
      assert digits[..0] == [] && before[..0] == [];
      while i < count && carry != 0
        invariant i <= count && carry < 16 && (i > 0 ==> carry < 10) && (digit == 0 ==> carry == 0)
        invariant AreDigits(digits[..i]) && forall j :: i <= j < count ==> digits[j] == before[j]
        invariant ValueOf(digits[..i]) + Scale(carry, i) == ValueOf(before[..i]) + digit
      {
        var value := digits[i] + carry;
        AddStep(digits[..i], before, i, digit, carry);
        SetDigit(i, value % 10);
        carry, i := value / 10, i + 1;
      }
      assert digits[..count] == digits[..i] + digits[i..count];
      if carry == 0 {
        assert digits[..count][..i] == digits[..i] && digits[..count][i..] == before[i..];
        RestKept(digits[..count], before, i, digit);
        ScaleLaws(0, 0, 0, count);
      } else {
        assert before[..count] == before;
      }
    }
  }

  lemma SmallCarry(s: seq<nat>, carry: nat)
    requires carry < 10
    ensures ValueOf(s + [carry]) == ValueOf(s) + Scale(carry, |s|)
  {
    ValueMore(s, carry);
  }

  lemma NothingAdded(digit: nat)
    ensures ValueOf([]) + Scale(digit, 0) == ValueOf([]) + digit
  {
    ScaleLaws(digit, 0, 0, 0);
  }

  // Once the carry is gone, the digits above are unchanged.
  lemma RestKept(after: seq<nat>, before: seq<nat>, i: nat, digit: nat)
    requires |after| == |before| && i <= |after| && after[i..] == before[i..]
    requires ValueOf(after[..i]) + Scale(0, i) == ValueOf(before[..i]) + digit
    ensures ValueOf(after) == ValueOf(before) + digit
  {
    hide Scale;
    hide ValueOf;
    ScaleLaws(0, 0, 0, i);
    ValueSplit(after, i);
    ValueSplit(before, i);
  }
}
