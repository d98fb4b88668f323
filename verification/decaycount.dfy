/** Decay of one 64-bit counter: an exact product in 32-bit halves, shifted right.

    Every operation is written with its 64-bit wrap-around; the lemmas show that none
    of them wraps and that the result is the exact floor of the product. */
module DecayCount {
  import opened Arithmetic

  const W32 := 0x1_0000_0000
  const W64 := 0x1_0000_0000_0000_0000

  function Pow2(n: nat): (p: nat)
    ensures p >= 1
  {
    if n == 0 then 1 else 2 * Pow2(n - 1)
  }

  // ---- Machine operations on 64-bit words ----

  function Wrap(x: nat): nat {
    Mod(x, W64)
  }

  function Low32(x: nat): nat {
    Mod(x, W32)
  }

  function ShiftLeft(x: nat, n: nat): nat {
    Wrap(x * Pow2(n))
  }

  function ShiftRight(x: nat, n: nat): nat {
    Div(x, Pow2(n))
  }

  function Or(a: nat, b: nat): nat {
    if a == 0 && b == 0 then 0
    else 2 * Or(a / 2, b / 2) + if a % 2 == 1 || b % 2 == 1 then 1 else 0
  }

  /** The high and low words of the product, from four products of halves. */
  function Product(count: nat, significand: nat): (nat, nat) {
    var countLow, countHigh := Low32(count), ShiftRight(count, 32);
    var scaleLow, scaleHigh := Low32(significand), ShiftRight(significand, 32);
    var lowProduct := Wrap(countLow * scaleLow);
    var middle := Wrap(Wrap(countHigh * scaleLow) + ShiftRight(lowProduct, 32));
    var high := ShiftRight(middle, 32);
    var middle2 := Wrap(Wrap(countLow * scaleHigh) + Low32(middle));
    var high2 := Wrap(high + Wrap(Wrap(countHigh * scaleHigh) + ShiftRight(middle2, 32)));
    (high2, Or(ShiftLeft(middle2, 32), Low32(lowProduct)))
  }

  function Decay(count: nat, significand: nat, shift: nat): nat {
    var (high, low) := Product(count, significand);
    if shift >= 128 then 0
    else if shift >= 64 then ShiftRight(high, shift - 64)
    else Or(ShiftLeft(high, 64 - shift), ShiftRight(low, shift))
  }

  // ---- Powers of two ----

  lemma Sixteen()
    ensures Pow2(4) == 16 && Pow2(1) == 2
  {
    assert Pow2(0) == 1 && Pow2(1) == 2 && Pow2(2) == 4 && Pow2(3) == 8;
  }

  lemma Powers()
    ensures Pow2(32) == W32 && Pow2(52) == 0x10_0000_0000_0000 && Pow2(53) == 0x20_0000_0000_0000 && Pow2(64) == W64
  {
    hide Pow2;
    Sixteen();
    PowAdd(4, 4);
    PowAdd(8, 8);
    PowAdd(16, 16);
    PowAdd(16, 4);
    PowAdd(32, 20);
    PowAdd(52, 1);
    PowAdd(32, 32);
  }

  lemma {:induction false} PowAdd(a: nat, b: nat)
    ensures Pow2(a + b) == Pow2(a) * Pow2(b)
  {
    if a > 0 {
      PowAdd(a - 1, b);
      Associate(Pow2(a - 1), Pow2(b));
    }
  }

  lemma Associate(a: nat, b: nat)
    ensures 2 * (a * b) == (2 * a) * b
  {
  }

  lemma {:induction false} PowMonotone(a: nat, b: nat)
    requires a <= b
    ensures Pow2(a) <= Pow2(b)
  {
    if a < b {
      PowMonotone(a, b - 1);
    }
  }

  // ---- Disjoint bits ----

  /** Bits that do not overlap are added. */
  lemma {:induction false} OrDisjoint(a: nat, b: nat, k: nat)
    requires b < Pow2(k)
    ensures Or(a * Pow2(k), b) == a * Pow2(k) + b
  {
    if k == 0 {
      OrZero(a);
    } else {
      var half := a * Pow2(k - 1);
      assert a * Pow2(k) == 2 * half by { Doubled(a, Pow2(k - 1)); }
      OrDisjoint(a, b / 2, k - 1);
    }
  }

  lemma Doubled(a: nat, p: nat)
    ensures a * (2 * p) == 2 * (a * p)
  {
  }

  lemma {:induction false} OrZero(a: nat)
    ensures Or(a, 0) == a
  {
    if a != 0 {
      OrZero(a / 2);
    }
  }

  // ---- The product ----

  lemma Halves(ch: nat, cl: nat, sh: nat, sl: nat)
    ensures (ch * W32 + cl) * (sh * W32 + sl) == (ch * sh) * W64 + (ch * sl + cl * sh) * W32 + cl * sl
  {
    var a, b := ch * W32, sh * W32;
    Distribute(a, cl, b + sl);
    Distribute(b, sl, a);
    Distribute(b, sl, cl);
    assert a * b == (ch * sh) * W64;
    assert a * sl == (ch * sl) * W32;
    assert cl * b == (cl * sh) * W32;
  }

  /** What the four products of halves add up to; no sum on the way reaches 2^64. */
  lemma Sums(p00: nat, p01: nat, p10: nat, p11: nat)
    requires p00 <= (W32 - 1) * (W32 - 1) && p10 <= (W32 - 1) * (W32 - 1)
    requires p01 <= (W32 - 1) * 0x1F_FFFF && p11 <= (W32 - 1) * 0x1F_FFFF
    ensures var middle := p10 + p00 / W32;
      var middle2 := p01 + middle % W32;
      var high := middle / W32 + (p11 + middle2 / W32);
      && p00 < W64 && p10 < W64 && p01 < W64 && p11 < W64 && middle < W64 && middle2 < W64 && high < W64
      && p11 + middle2 / W32 < W64
      && p11 * W64 + (p10 + p01) * W32 + p00 == high * W64 + (middle2 % W32) * W32 + p00 % W32
  {
  }

  lemma HighHalf(x: nat)
    ensures ShiftRight(x, 32) == x / W32 && Low32(x) == x % W32
  {
    Powers();
  }

  lemma NoWrap(x: nat)
    requires x < W64
    ensures Wrap(x) == x
  {
  }

  // Shifting a word left by half its width keeps its low half.
  lemma KeepLow(x: nat, low: nat)
    requires low < W32
    ensures Or(ShiftLeft(x, 32), low) == (x % W32) * W32 + low
  {
    hide Or;
    Powers();
    assert x * W32 == (x / W32) * W64 + (x % W32) * W32;
    Unique(x * W32, W64, x / W32, (x % W32) * W32);
    OrDisjoint(x % W32, low, 32);
  }

  /** The two words are exactly the 128-bit product. */
  lemma ProductExact(count: nat, significand: nat)
    requires count < W64 && significand < Pow2(53)
    ensures var (high, low) := Product(count, significand);
      low < W64 && high * W64 + low == count * significand
  {
    hide Or;
    hide Wrap;
    hide ShiftLeft;
    hide ShiftRight;
    hide Low32;
    hide Pow2;
    Powers();
    var cl, ch, sl, sh := count % W32, count / W32, significand % W32, significand / W32;
    HighHalf(count);
    HighHalf(significand);
    ProductBound(cl, sl, W32 - 1, W32 - 1);
    ProductBound(ch, sl, W32 - 1, W32 - 1);
    ProductBound(cl, sh, W32 - 1, 0x1F_FFFF);
    ProductBound(ch, sh, W32 - 1, 0x1F_FFFF);
    Halves(ch, cl, sh, sl);
    Words(cl * sl, cl * sh, ch * sl, ch * sh);
  }

  // The same computation from the four products.
  lemma Words(p00: nat, p01: nat, p10: nat, p11: nat)
    requires p00 <= (W32 - 1) * (W32 - 1) && p10 <= (W32 - 1) * (W32 - 1)
    requires p01 <= (W32 - 1) * 0x1F_FFFF && p11 <= (W32 - 1) * 0x1F_FFFF
    ensures var middle := Wrap(Wrap(p10) + ShiftRight(Wrap(p00), 32));
      var middle2 := Wrap(Wrap(p01) + Low32(middle));
      var high := Wrap(ShiftRight(middle, 32) + Wrap(Wrap(p11) + ShiftRight(middle2, 32)));
      var low := Or(ShiftLeft(middle2, 32), Low32(Wrap(p00)));
      && low < W64 && high * W64 + low == p11 * W64 + (p10 + p01) * W32 + p00
  {
    hide Or;
    hide Wrap;
    hide ShiftLeft;
    hide ShiftRight;
    hide Low32;
    Sums(p00, p01, p10, p11);
    NoWrap(p00);
    NoWrap(p01);
    NoWrap(p10);
    NoWrap(p11);
    HighHalf(p00);
    var middle := p10 + p00 / W32;
    NoWrap(middle);
    HighHalf(middle);
    var middle2 := p01 + middle % W32;
    NoWrap(middle2);
    HighHalf(middle2);
    NoWrap(p11 + middle2 / W32);
    NoWrap(middle / W32 + (p11 + middle2 / W32));
    KeepLow(middle2, p00 % W32);
  }

  function Floor(count: nat, significand: nat, shift: nat): nat {
    Div(count * significand, Pow2(shift))
  }

  /** Decay is the exact floor of count times significand over two to the shift. */
  lemma DecayExact(count: nat, significand: nat, shift: nat)
    requires count < W64 && significand < Pow2(53) && shift >= 53
    ensures Decay(count, significand, shift) == Floor(count, significand, shift)
  {
    hide Or;
    hide Product;
    hide Pow2;
    hide Div;
    hide Mod;
    ProductExact(count, significand);
    var (high, low) := Product(count, significand);
    var x := count * significand;
    HighWord(count, significand, high, low);
    if shift >= 128 {
      Powers();
      PowAdd(64, 53);
      PowMonotone(117, shift);
      Unique(x, Pow2(shift), 0, x);
    } else if shift >= 64 {
      Powers();
      Unique(x, W64, high, low);
      PowAdd(64, shift - 64);
      DivideTwice(x, W64, Pow2(shift - 64));
    } else {
      LowShift(high, low, shift);
    }
  }

  lemma HighWord(count: nat, significand: nat, high: nat, low: nat)
    requires count < W64 && significand < Pow2(53) && high * W64 + low == count * significand
    ensures high < Pow2(53) && count * significand < W64 * Pow2(53)
  {
    hide Pow2;
    ProductBound(count, significand, W64, Pow2(53) - 1);
    Powers();
  }

  lemma LowShift(high: nat, low: nat, shift: nat)
    requires high < Pow2(53) && low < W64 && 53 <= shift < 64
    ensures Or(ShiftLeft(high, 64 - shift), ShiftRight(low, shift)) == Div(high * W64 + low, Pow2(shift))
  {
    hide Or;
    hide Pow2;
    hide Div;
    hide Mod;
    var up, down := Pow2(64 - shift), Pow2(shift);
    Powers();
    PowAdd(shift, 64 - shift);
    KeepHigh(high, 64 - shift);
    // the high word supplies whole multiples of the divisor
    Regroup(high, up, down);
    DivideSum(high * up, low, down);
    Divides(low, down);
    LessThan(Div(low, down), down, up, low);
    OrDisjoint(high, Div(low, down), 64 - shift);
  }

  // The high word of a product is small enough to be shifted without loss.
  lemma KeepHigh(high: nat, n: nat)
    requires high < Pow2(53) && n <= 11
    ensures ShiftLeft(high, n) == high * Pow2(n)
  {
    hide Pow2;
    hide Div;
    hide Mod;
    Powers();
    PowAdd(53, n);
    PowMonotone(53 + n, 64);
    Apart(high, Pow2(53), Pow2(n));
    Small(high * Pow2(n));
  }

  lemma Small(x: nat)
    requires x < W64
    ensures Mod(x, W64) == x
  {
  }

  lemma LessThan(q: nat, d: nat, up: nat, x: nat)
    requires q * d <= x < d * up
    ensures q < up
  {
    if q >= up {
      ProductBound(up, d, q, d);
    }
  }
}
