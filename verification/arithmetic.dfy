/** Nonlinear arithmetic by name.

    Products and quotients have names, so that proofs can hide their definitions and
    use the laws below instead. */
module Arithmetic {
  // ---- Quotient and remainder of naturals ----

  function Div(x: nat, d: nat): nat
    requires d > 0
  {
    x / d
  }

  function Mod(x: nat, d: nat): nat
    requires d > 0
  {
    x % d
  }

  lemma Divides(x: nat, d: nat)
    requires d > 0
    ensures x == Div(x, d) * d + Mod(x, d) && Mod(x, d) < d
  {
  }

  lemma Unique(x: nat, d: nat, q: nat, r: nat)
    requires r < d && x == q * d + r
    ensures Div(x, d) == q && Mod(x, d) == r
  {
    hide Div;
    hide Mod;
    Divides(x, d);
    var p := Div(x, d);
    if p < q {
      Apart(p, q, d);
    } else if q < p {
      Apart(q, p, d);
    }
  }

  lemma Apart(a: nat, b: nat, d: nat)
    requires a < b
    ensures a * d + d <= b * d
  {
    Distribute(a, 1, d);
    Distribute(a + 1, b - a - 1, d);
  }

  lemma Distribute(a: nat, b: nat, d: nat)
    ensures (a + b) * d == a * d + b * d && d * (a + b) == d * a + d * b
  {
  }

  lemma DivideSum(a: nat, b: nat, d: nat)
    requires d > 0
    ensures Div(a * d + b, d) == a + Div(b, d)
  {
    hide Div;
    hide Mod;
    Divides(b, d);
    Distribute(a, Div(b, d), d);
    Unique(a * d + b, d, a + Div(b, d), Mod(b, d));
  }

  lemma DivideTwice(x: nat, a: nat, b: nat)
    requires a > 0 && b > 0
    ensures a * b > 0 && Div(Div(x, a), b) == Div(x, a * b)
  {
    hide Div;
    hide Mod;
    var q := Div(x, a);
    Divides(x, a);
    Divides(q, b);
    var p, s := Div(q, b), Mod(q, b);
    Distribute(p * b, s, a);
    Regroup(p, b, a);
    Apart(s, b, a);
    Positive(a, b);
    Unique(x, a * b, p, s * a + Mod(x, a));
  }

  lemma Regroup(p: nat, b: nat, a: nat)
    ensures p * b * a == p * (a * b) && b * a == a * b
  {
  }

  lemma Positive(a: nat, b: nat)
    requires a > 0 && b > 0
    ensures a * b > 0
  {
  }

  lemma ProductBound(a: nat, b: nat, c: nat, d: nat)
    requires a <= c && b <= d
    ensures a * b <= c * d
  {
    Distribute(a, c - a, b);
    Distribute(b, d - b, c);
  }

  // ---- Products and quotients of reals ----

  function Times(a: real, b: real): real {
    a * b
  }

  function Ratio(n: real, d: real): real
    requires d > 0.0
  {
    n / d
  }

  lemma TimesDistributes(a: real, b: real, c: real)
    ensures Times(a, b + c) == Times(a, b) + Times(a, c) && Times(a + b, c) == Times(a, c) + Times(b, c)
    ensures Times(a, 1.0) == a && Times(a, 0.0) == 0.0 && Times(0.0, a) == 0.0
  {
  }

  lemma TimesAssociates(a: real, b: real, c: real)
    ensures Times(Times(a, b), c) == Times(a, Times(b, c)) && Times(a, b) == Times(b, a)
  {
  }

  lemma TimesOrdered(a: real, b: real, e: real)
    requires e > 0.0
    ensures a < b ==> Times(a, e) < Times(b, e)
    ensures a <= b ==> Times(a, e) <= Times(b, e)
  {
  }

  lemma TimesNotNegative(a: real, b: real)
    requires a >= 0.0 && b >= 0.0
    ensures Times(a, b) >= 0.0
  {
  }

  lemma TimesShrinks(a: real, share: real)
    requires a > 0.0 && 0.0 < share <= 1.0
    ensures 0.0 < Times(a, share) <= a
    ensures share < 1.0 ==> Times(a, share) < a
  {
  }

  lemma TimesIntegers(a: int, b: int)
    ensures Times(a as real, b as real) == (a * b) as real
  {
  }

  lemma AddFractions(a: real, b: real, d: real)
    requires d > 0.0
    ensures Ratio(a, d) + Ratio(b, d) == Ratio(a + b, d)
  {
  }

  lemma ScaledFraction(a: real, d: real, x: real)
    requires d > 0.0
    ensures Times(Ratio(a, d), x) == Ratio(Times(a, x), d)
  {
  }

  lemma RatioInUnit(n: real, d: real)
    requires 0.0 < n <= d
    ensures 0.0 < Ratio(n, d) <= 1.0
  {
  }

  lemma RatioBelowOne(n: real, d: real)
    requires 0.0 < n < d
    ensures 0.0 < Ratio(n, d) < 1.0
  {
    RatioInUnit(n, d);
    RatioCancels(n, d);
    hide Ratio;
    if Ratio(n, d) == 1.0 {
      TimesDistributes(d, 0.0, 1.0);
      TimesAssociates(1.0, d, 1.0);
    }
  }

  lemma RatioCancels(n: real, d: real)
    requires d > 0.0
    ensures Times(Ratio(n, d), d) == n
  {
  }

  lemma RatioOfItself(d: real)
    requires d > 0.0
    ensures Ratio(d, d) == 1.0
  {
  }

  lemma RatioOrdered(a: real, b: real, d: real)
    requires a <= b && d > 0.0
    ensures Ratio(a, d) <= Ratio(b, d)
    ensures Ratio(0.0, d) == 0.0
  {
  }

  lemma RatioOfOne(x: real)
    ensures Ratio(x, 1.0) == x
  {
  }
}
