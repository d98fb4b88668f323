/** The rolling window of normal scores and its statistics, as values. */
module ScoreWindow {
  import opened Arithmetic

  // ---- Indices modulo the window size ----

  lemma NextIndex(n: nat, size: nat)
    requires size > 0
    ensures Mod(Mod(n, size) + 1, size) == Mod(n + 1, size)
  {
    hide Div;
    hide Mod;
    Divides(n, size);
    var q, r := Div(n, size), Mod(n, size);
    if r + 1 == size {
      Distribute(q, 1, size);
      Unique(n + 1, size, q + 1, 0);
      Unique(size, size, 1, 0);
    } else {
      Unique(n + 1, size, q, r + 1);
      Unique(r + 1, size, 0, r + 1);
    }
  }

  // Two indices less than a window apart have different slots.
  lemma DifferentSlots(j: nat, n: nat, size: nat)
    requires size > 0 && j < n < j + size
    ensures Mod(j, size) != Mod(n, size)
  {
    hide Div;
    hide Mod;
    Divides(j, size);
    Divides(n, size);
    var p, q := Div(j, size), Div(n, size);
    if p < q {
      Apart(p, q, size);
    } else if q < p {
      Apart(q, p, size);
    }
  }

  // ---- The window ----

  // The buffer holds the last scores of the history, each at its index modulo the size.
  ghost predicate Holds(buf: seq<real>, history: seq<real>) {
    |buf| > 0 && forall j :: 0 <= j < |history| && |history| - |buf| <= j ==> Slot(buf, j) == history[j]
  }

  function Slot(buf: seq<real>, j: nat): real
    requires |buf| > 0
  {
    Divides(j, |buf|);
    buf[Mod(j, |buf|)]
  }

  lemma HoldsMore(buf: seq<real>, history: seq<real>, score: real)
    requires Holds(buf, history)
    ensures Mod(|history|, |buf|) < |buf| && Holds(buf[Mod(|history|, |buf|) := score], history + [score])
  {
    hide Mod;
    var n, size := |history|, |buf|;
    Divides(n, size);
    var after, more := buf[Mod(n, size) := score], history + [score];
    forall j | 0 <= j < |more| && |more| - size <= j ensures Slot(after, j) == more[j] {
      Divides(j, size);
      if j < n {
        DifferentSlots(j, n, size);
        assert Slot(buf, j) == history[j];
      }
    }
  }

  lemma HoldsNothing(buf: seq<real>)
    requires |buf| > 0
    ensures Holds(buf, [])
  {
  }

  // ---- Statistics ----

  ghost function Sum(s: seq<real>): real {
    if s == [] then 0.0 else Sum(s[..|s| - 1]) + s[|s| - 1]
  }

  ghost function Mean(s: seq<real>): real
    requires |s| > 0
  {
    Ratio(Sum(s), |s| as real)
  }

  ghost function Squares(s: seq<real>, mean: real): real {
    if s == [] then 0.0
    else
      var diff := s[|s| - 1] - mean;
      Squares(s[..|s| - 1], mean) + diff * diff
  }

  ghost function Variance(s: seq<real>): real
    requires |s| > 0
  {
    Ratio(Squares(s, Mean(s)), |s| as real)
  }

  /** The threshold of a full window: its mean and a multiple of its standard deviation. */
  ghost function ThresholdOf(s: seq<real>, k: real, root: real -> real): real
    requires |s| > 0
  {
    Mean(s) + Times(k, root(Variance(s)))
  }

  method Threshold(buf: seq<real>, k: real, root: real -> real) returns (threshold: real)
    requires |buf| > 0
    ensures threshold == ThresholdOf(buf, k, root)
  {
    hide Ratio;
    hide Times;
    var sum, n := 0.0, |buf|;
    for i := 0 to n
      invariant sum == Sum(buf[..i])
    {
      assert buf[..i + 1][..i] == buf[..i];
      sum := sum + buf[i];
    }
    assert buf[..n] == buf;
    var mean := Ratio(sum, n as real);
    var squares := 0.0;
    for i := 0 to n
      invariant squares == Squares(buf[..i], mean)
    {
      assert buf[..i + 1][..i] == buf[..i];
      var diff := buf[i] - mean;
      squares := squares + diff * diff;
    }
    var deviation := root(Ratio(squares, n as real));
    threshold := mean + Times(k, deviation);
  }

  lemma {:induction false} SquaresNotNegative(s: seq<real>, mean: real)
    ensures Squares(s, mean) >= 0.0
  {
    if s != [] {
      SquaresNotNegative(s[..|s| - 1], mean);
      TimesSquare(s[|s| - 1] - mean);
    }
  }

  lemma TimesSquare(x: real)
    ensures x * x >= 0.0
  {
  }

  /** The root is taken of a number that is not negative; with a root that is not
      negative either, the threshold is at least the mean. */
  lemma ThresholdAboveMean(s: seq<real>, k: real, root: real -> real)
    requires |s| > 0 && k >= 0.0
    ensures Variance(s) >= 0.0
    ensures (forall x :: x >= 0.0 ==> root(x) >= 0.0) ==> ThresholdOf(s, k, root) >= Mean(s)
  {
    hide Times;
    hide Ratio;
    hide Sum;
    hide Squares;
    SquaresNotNegative(s, Mean(s));
    RatioOrdered(0.0, Squares(s, Mean(s)), |s| as real);
    if forall x :: x >= 0.0 ==> root(x) >= 0.0 {
      TimesNotNegative(k, root(Variance(s)));
    }
  }

  /** Sums over the scores, one score at a time. */
  lemma OneMoreScore(s: seq<real>, x: real, mean: real)
    ensures Sum([]) == 0.0 && Squares([], mean) == 0.0
    ensures Sum(s + [x]) == Sum(s) + x
    ensures Squares(s + [x], mean) == Squares(s, mean) + (x - mean) * (x - mean)
  {
    assert (s + [x])[..|s|] == s;
  }

  /** The threshold, written out: the mean times the number of scores is their sum, and the variance times
      that number is the sum of the squared distances from the mean. */
  lemma ThresholdIs(s: seq<real>, k: real, root: real -> real, mean: real, variance: real)
    requires |s| > 0 && mean * |s| as real == Sum(s) && variance * |s| as real == Squares(s, mean)
    ensures ThresholdOf(s, k, root) == mean + k * root(variance)
  {
    hide Sum;
    hide Squares;
    hide Ratio;
    RatioIs(Sum(s), |s| as real, mean);
    RatioIs(Squares(s, mean), |s| as real, variance);
  }

  lemma RatioIs(n: real, d: real, q: real)
    requires d > 0.0 && q * d == n
    ensures Ratio(n, d) == q
  {
  }

  lemma ThresholdExample(k: real, root: real -> real)
    ensures ThresholdOf([1.0, 3.0], k, root) == 2.0 + k * root(1.0)
  {
    OneMoreScore([], 1.0, 2.0);
    OneMoreScore([1.0], 3.0, 2.0);
    assert [1.0] + [3.0] == [1.0, 3.0] && [] + [1.0] == [1.0];
    hide Sum;
    hide Squares;
    hide ThresholdOf;
    ThresholdIs([1.0, 3.0], k, root, 2.0, 1.0);
  }

  // ---- The order in the buffer does not matter ----

  lemma {:induction false} SumConcat(a: seq<real>, b: seq<real>)
    ensures Sum(a + b) == Sum(a) + Sum(b)
  {
    if b == [] {
      assert a + b == a;
    } else {
      assert (a + b)[..|a + b| - 1] == a + b[..|b| - 1];
      SumConcat(a, b[..|b| - 1]);
    }
  }

  lemma {:induction false} SquaresConcat(a: seq<real>, b: seq<real>, mean: real)
    ensures Squares(a + b, mean) == Squares(a, mean) + Squares(b, mean)
  {
    if b == [] {
      assert a + b == a;
    } else {
      assert (a + b)[..|a + b| - 1] == a + b[..|b| - 1];
      SquaresConcat(a, b[..|b| - 1], mean);
    }
  }

  // A full buffer is a rotation of the last scores.
  lemma Rotated(buf: seq<real>, history: seq<real>)
    requires Holds(buf, history) && |history| >= |buf|
    ensures var r := Mod(|history|, |buf|);
      r < |buf| && history[|history| - |buf|..] == buf[r..] + buf[..r]
  {
    hide Div;
    hide Mod;
    var n, size := |history|, |buf|;
    Divides(n, size);
    var q, r := Div(n, size), Mod(n, size);
    var last := history[n - size..];
    if q == 0 {
      Apart(0, 1, size);
    } else {
      Distribute(q - 1, 1, size);
    }
    forall i | 0 <= i < size ensures last[i] == (buf[r..] + buf[..r])[i] {
      var j := n - size + i;
      assert Slot(buf, j) == history[j];
      if r + i < size {
        Unique(j, size, q - 1, r + i);
      } else {
        Unique(j, size, q, r + i - size);
      }
    }
  }

  /** The threshold is that of the last scores, in any order. */
  lemma ThresholdOfLast(buf: seq<real>, history: seq<real>, k: real, root: real -> real)
    requires Holds(buf, history) && |history| >= |buf|
    ensures ThresholdOf(buf, k, root) == ThresholdOf(history[|history| - |buf|..], k, root)
  {
    hide Mod;
    hide Holds;
    hide Sum;
    hide Squares;
    hide Ratio;
    hide Times;
    Rotated(buf, history);
    var r := Mod(|history|, |buf|);
    var a, b := buf[..r], buf[r..];
    assert buf == a + b;
    SumConcat(a, b);
    SumConcat(b, a);
    var mean := Mean(buf);
    SquaresConcat(a, b, mean);
    SquaresConcat(b, a, mean);
  }
}
