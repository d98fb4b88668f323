/** The threshold grid of a calibration: the roundings of exactly start + i * step up to end. */
module ThresholdGrid {
  import opened Arithmetic
  import opened DigitArrays
  import opened ExactDecimal
  import opened ExactLiteral

  const MAX_THRESHOLDS := 1000

  /** A rounding to a machine number, if it is finite. */
  datatype Rounded = Rounded(value: real) | NotRepresentable

  /** A grid, or why there is none; the program reports all failures alike. */
  datatype Grid = Points(values: seq<real>) | BadSpec | Unrepresentable | TooMany | NotIncreasing

  // The exact point number i.
  function Point(start: real, step: real, i: nat): real {
    start + Times(i as real, step)
  }

  // The first n points round to these values, each above the one before.
  ghost predicate RoundedPoints(values: seq<real>, start: real, step: real, round: real -> Rounded) {
    && (forall i :: 0 <= i < |values| ==> round(Point(start, step, i)) == Rounded(values[i]))
    && forall i, j :: 0 <= i < j < |values| ==> values[i] < values[j]
  }

  // The grid has exactly n points: number n - 1 is within the range and number n is beyond it.
  ghost predicate HasPoints(range: real, step: real, n: nat) {
    n > 0 && Times((n - 1) as real, step) <= range < Times(n as real, step)
  }

  /** That number of points is one more than the whole steps in the range. */
  lemma PointCount(range: real, step: real, n: nat)
    requires step > 0.0 && HasPoints(range, step, n)
    ensures n == Ratio(range, step).Floor + 1
  {
    hide Times;
    hide Ratio;
    var q := Ratio(range, step);
    RatioCancels(range, step);
    TimesOrdered(q, (n - 1) as real, step);
    TimesOrdered(n as real, q, step);
  }

  // Some point within the range does not round to a value above the previous point's.
  ghost predicate BreaksAt(start: real, step: real, range: real, round: real -> Rounded, i: nat) {
    && Times(i as real, step) <= range
    && (round(Point(start, step, i)).NotRepresentable?
        || (i > 0 && round(Point(start, step, i - 1)).Rounded?
            && round(Point(start, step, i)).value <= round(Point(start, step, i - 1)).value))
  }

  ghost predicate Breaks(start: real, step: real, range: real, round: real -> Rounded) {
    exists i: nat :: BreaksAt(start, step, range, round, i)
  }

  // The literal denotes nothing that can be computed with.
  ghost predicate Unreadable(l: Literal) {
    l.digits == [] || Blocked(l)
  }

  // The literal has digits, not too many, and its exponent is not too large.
  ghost predicate Readable(l: Literal) {
    l.digits != [] && l.Modest()
  }

  ghost predicate BadRange(start: real, end: real, step: real) {
    step <= 0.0 || end < start
  }

  lemma SignDenotes(n: Number)
    requires n.Normal()
    ensures n.IsZero() ==> Denotes(n) == 0.0
    ensures !n.IsZero() ==> if n.negative then Denotes(n) < 0.0 else Denotes(n) > 0.0
  {
    hide Scale;
    hide ValueOf;
    hide Denotes;
    hide Times;
    hide Ten;
    ZeroIs(n);
    if !n.IsZero() {
      AlignedDenotes(n, n.exponent);
      ZeroMagnitude(n, n.exponent);
      TenPositive(n.exponent);
      SameOrder(Aligned(n, n.exponent), 0, Ten(n.exponent));
      SameOrder(0, Aligned(n, n.exponent), Ten(n.exponent));
      TimesDistributes(Ten(n.exponent), 0.0, 0.0);
    }
  }

  /** The opposite number; a normal zero has no sign. */
  function Negated(n: Number): Number {
    n.(negative := !n.negative && !n.IsZero())
  }

  lemma NegatedDenotes(n: Number)
    requires n.Normal()
    ensures Negated(n).Normal() && Denotes(Negated(n)) == 0.0 - Denotes(n)
  {
    hide Times;
    hide Ten;
    hide ValueOf;
    ZeroIs(n);
    if !n.IsZero() {
      var v := ValueOf(n.digits);
      TimesDistributes(WithSign(false, v) as real, WithSign(true, v) as real, Ten(n.exponent));
      TimesDistributes(Ten(n.exponent), 0.0, 0.0);
    }
  }

  // The ends cannot be compared, or their difference cannot be computed.
  ghost predicate RangeBlocked(start: Number, end: Number) {
    CompareBlocked(start, end) || (Denotes(start) <= Denotes(end) && AddBlocked(end, Negated(start)))
  }

  /** Compute the end of the range relative to its start. */
  method RangeOf(start: Number, end: Number, step: Number, noMemory: bool) returns (g: Grid, range: Number)
    requires start.Normal() && end.Normal() && step.Normal()
    ensures g == Points([]) || g == BadSpec || g == Unrepresentable
    ensures g == Points([]) ==> range.Normal() && Denotes(range) == Denotes(end) - Denotes(start)
    ensures g == Points([]) ==> Denotes(range) >= 0.0 && Denotes(step) > 0.0
    ensures g == Points([]) && Within(start, MODEST) && Within(end, MODEST) ==> Within(range, 8 * MODEST)
    ensures g == BadSpec ==> BadRange(Denotes(start), Denotes(end), Denotes(step))
    ensures g == Unrepresentable ==> noMemory || !Within(start, MODEST) || !Within(end, MODEST)
    ensures g == Unrepresentable ==> noMemory || RangeBlocked(start, end)
    ensures g == Points([]) ==> !noMemory && !RangeBlocked(start, end)
  {
    hide Denotes;
    range := start;
    SignDenotes(step);
    if step.IsZero() || step.negative {
      return BadSpec, range;
    }
    var ok, comparison := Compare(start, end);
    if !ok {
      return Unrepresentable, range;
    }
    if comparison > 0 {
      return BadSpec, range;
    }
    NegatedDenotes(start);
    ok, range := Add(end, Negated(start), noMemory);
    g := if ok then Points([]) else Unrepresentable;
  }

  // Point number i cannot be computed: its offset from the start, its comparison with the range, or itself.
  ghost predicate PointBlocked(start: Number, step: Number, range: Number, i: nat) {
    var x := Times(i as real, Denotes(step));
    || !Representable(x)
    || exists offset: Number :: offset.Normal() && Denotes(offset) == x && OffsetBlocked(start, offset, range)
  }

  ghost predicate OffsetBlocked(start: Number, offset: Number, range: Number) {
    CompareBlocked(offset, range) || (Denotes(offset) <= Denotes(range) && AddBlocked(start, offset))
  }

  lemma PointIs(start: Number, step: Number, range: Number, i: nat, offset: Number)
    requires offset.Normal() && Denotes(offset) == Times(i as real, Denotes(step))
    ensures PointBlocked(start, step, range, i) <==> OffsetBlocked(start, offset, range)
  {
    hide Denotes;
    hide Times;
    hide OffsetBlocked;
    if PointBlocked(start, step, range, i) {
      var other: Number :| other.Normal() && Denotes(other) == Denotes(offset) && OffsetBlocked(start, other, range);
      CanonicalUnique(other, offset);
    }
  }

  /** One grid point: whether it is within the range, and its exact value. */
  method PointAt(start: Number, step: Number, range: Number, index: nat, noMemory: bool)
    returns (ok: bool, inside: bool, point: Number)
    requires start.Normal() && step.Normal() && range.Normal() && index <= MAX_THRESHOLDS
    ensures ok ==> (inside <==> Times(index as real, Denotes(step)) <= Denotes(range))
    ensures ok && inside ==> point.Normal() && Denotes(point) == Point(Denotes(start), Denotes(step), index)
    ensures !ok ==> noMemory || !Within(start, MODEST) || !Within(step, MODEST) || !Within(range, 8 * MODEST)
    ensures !ok <==> noMemory || PointBlocked(start, step, range, index)
  {
    hide Denotes;
    hide Times;
    hide AddBlocked;
    hide PointBlocked;
    point := start;
    var offset;
    ok, offset := Multiple(step, index, noMemory);
    if !ok {
      assert PointBlocked(start, step, range, index) || noMemory by { NoOffset(start, step, range, index); }
      return false, false, point;
    }
    PointIs(start, step, range, index, offset);
    var comparison;
    ok, comparison := Compare(offset, range);
    if !ok {
      return false, false, point;
    }
    if comparison > 0 {
      return true, false, point;
    }
    inside := true;
    ok, point := Add(start, offset, noMemory);
  }

  lemma NoOffset(start: Number, step: Number, range: Number, i: nat)
    ensures !Representable(Times(i as real, Denotes(step))) ==> PointBlocked(start, step, range, i)
  {
  }

  // The number of a literal.
  ghost predicate Spells(n: Number, l: Literal) {
    n.Normal() && Denotes(n) == LiteralValue(l)
  }

  // Up to point number `last`, nothing on the way of the grid of these literals is blocked.
  ghost predicate GridOpen(start: Literal, end: Literal, step: Literal, last: nat) {
    exists s, e, d, r: Number :: Spells(s, start) && Spells(e, end) && Spells(d, step) && Open(s, e, d, r, last)
  }

  ghost predicate Open(s: Number, e: Number, d: Number, r: Number, last: nat) {
    && !RangeBlocked(s, e) && r.Normal() && Denotes(r) == Denotes(e) - Denotes(s)
    && forall i: nat :: i <= last ==> !PointBlocked(s, d, r, i)
  }

  ghost predicate GridBlocked(start: Literal, end: Literal, step: Literal) {
    exists s, e, d, r: Number :: Spells(s, start) && Spells(e, end) && Spells(d, step) && BlockedFor(s, e, d, r)
  }

  ghost predicate BlockedFor(s: Number, e: Number, d: Number, r: Number) {
    || RangeBlocked(s, e)
    || (r.Normal() && Denotes(r) == Denotes(e) - Denotes(s) && exists i: nat :: i <= MAX_THRESHOLDS && PointBlocked(s, d, r, i))
  }

  // A grid that is open to its last possible point is not blocked.
  lemma OpenOrBlocked(start: Literal, end: Literal, step: Literal)
    ensures !(GridOpen(start, end, step, MAX_THRESHOLDS) && GridBlocked(start, end, step))
  {
    hide Denotes;
    hide LiteralValue;
    hide RangeBlocked;
    hide PointBlocked;
    if GridOpen(start, end, step, MAX_THRESHOLDS) && GridBlocked(start, end, step) {
      var s, e, d, r: Number :| Spells(s, start) && Spells(e, end) && Spells(d, step) && Open(s, e, d, r, MAX_THRESHOLDS);
      var s', e', d', r': Number :| Spells(s', start) && Spells(e', end) && Spells(d', step) && BlockedFor(s', e', d', r');
      CanonicalUnique(s, s');
      CanonicalUnique(e, e');
      CanonicalUnique(d, d');
      if !RangeBlocked(s, e) {
        CanonicalUnique(r, r');
      }
      assert false;
    }
  }

  /** Emit every grid point, rounded once, or say why the grid cannot be used. */
  method BuildGrid(start: Literal, end: Literal, step: Literal, round: real -> Rounded,
                   noMemory: bool, fails: nat -> bool, failsParse: nat -> bool)
    returns (g: Grid)
    requires start.WellFormed() && end.WellFormed() && step.WellFormed()
    ensures g.Points? ==>
      var s, d, range := LiteralValue(start), LiteralValue(step), LiteralValue(end) - LiteralValue(start);
      && d > 0.0 && range >= 0.0 && |g.values| <= 1000
      && HasPoints(range, d, |g.values|) && RoundedPoints(g.values, s, d, round)
    ensures g.TooMany? ==>
      Times(1000.0, LiteralValue(step)) <= LiteralValue(end) - LiteralValue(start)
    ensures g.NotIncreasing? ==>
      Breaks(LiteralValue(start), LiteralValue(step), LiteralValue(end) - LiteralValue(start), round)
    ensures g.BadSpec? ==> BadRange(LiteralValue(start), LiteralValue(end), LiteralValue(step))
    ensures g.Unrepresentable? ==>
      (noMemory || (exists i :: fails(i)) || (exists i :: failsParse(i)) || !Readable(start) || !Readable(end) || !Readable(step))
    ensures g.Unrepresentable? ==>
      (noMemory || (exists i :: fails(i)) || (exists i :: failsParse(i))
        || Unreadable(start) || Unreadable(end) || Unreadable(step) || GridBlocked(start, end, step))
    ensures g.Points? ==> !Unreadable(start) && !Unreadable(end) && !Unreadable(step)
    ensures g.Points? ==> GridOpen(start, end, step, |g.values|)
  {
    hide LiteralValue;
    hide Denotes;
    hide Blocked;
    hide RangeBlocked;
    hide PointBlocked;
    var ok, s, e, d, range;
    ok, s := Parse(start, noMemory, failsParse);
    if !ok {
      return Unrepresentable;
    }
    ok, e := Parse(end, noMemory, failsParse);
    if !ok {
      return Unrepresentable;
    }
    ok, d := Parse(step, noMemory, failsParse);
    if !ok {
      return Unrepresentable;
    }
    g, range := RangeOf(s, e, d, noMemory);
    assert Spells(s, start) && Spells(e, end) && Spells(d, step);
    if !g.Points? {
      assert g.Unrepresentable? && !noMemory ==> BlockedFor(s, e, d, range);
      return;
    }
    g := EmitPoints(s, d, range, round, fails);
    assert g.Unrepresentable? && !(exists i :: fails(i)) ==> BlockedFor(s, e, d, range);
    assert g.Points? ==> Open(s, e, d, range, |g.values|);
  }

  method EmitPoints(start: Number, step: Number, range: Number, round: real -> Rounded, fails: nat -> bool) returns (g: Grid)
    requires start.Normal() && step.Normal() && range.Normal() && Denotes(range) >= 0.0 && Denotes(step) > 0.0
    ensures g.Points? ==> |g.values| <= MAX_THRESHOLDS && HasPoints(Denotes(range), Denotes(step), |g.values|)
    ensures g.Points? ==> RoundedPoints(g.values, Denotes(start), Denotes(step), round)
    ensures g.TooMany? ==> Times(MAX_THRESHOLDS as real, Denotes(step)) <= Denotes(range)
    ensures g.NotIncreasing? ==> Breaks(Denotes(start), Denotes(step), Denotes(range), round)
    ensures g.Unrepresentable? && Within(start, MODEST) && Within(step, MODEST) && Within(range, 8 * MODEST) ==>
      exists i :: fails(i)
    ensures g.Unrepresentable? ==> exists i: nat :: i <= MAX_THRESHOLDS && (fails(i) || PointBlocked(start, step, range, i))
    ensures g.Points? ==> forall i: nat :: i <= |g.values| ==> !fails(i) && !PointBlocked(start, step, range, i)
    ensures !g.BadSpec?
  {
    hide PointBlocked;
    hide Denotes;
    hide Times;
    hide Number.Normal;
    var values: seq<real> := [];
    TimesDistributes(Denotes(step), 0.0, 0.0);
    var index: nat := 0;
    while index <= MAX_THRESHOLDS
      invariant index == |values| <= MAX_THRESHOLDS
      invariant RoundedPoints(values, Denotes(start), Denotes(step), round)
      invariant forall i: nat :: i < index ==> !fails(i) && !PointBlocked(start, step, range, i)
      invariant index > 0 ==> Times((index - 1) as real, Denotes(step)) <= Denotes(range)
      decreases MAX_THRESHOLDS - index
    {
      var ok, inside, point := PointAt(start, step, range, index, fails(index));
      if !ok {
        return Unrepresentable;
      }
      if !inside {
        return Points(values);
      }
      var value := round(Denotes(point));
      if value.NotRepresentable? {
        assert BreaksAt(Denotes(start), Denotes(step), Denotes(range), round, index);
        return NotIncreasing;
      }
      if |values| == MAX_THRESHOLDS {
        return TooMany;
      }
      if |values| != 0 && value.value <= values[|values| - 1] {
        assert BreaksAt(Denotes(start), Denotes(step), Denotes(range), round, index);
        return NotIncreasing;
      }
      values := values + [value.value];
      index := index + 1;
    }
  }

  /** The grid of three literals, in plain arithmetic: at most 1000 values; value number i is the rounding of the
      start plus i steps; they increase; and the last point, but not the next one, lies within the range. */
  lemma GridMeans(values: seq<real>, s: real, d: real, range: real, round: real -> Rounded)
    requires HasPoints(range, d, |values|) && RoundedPoints(values, s, d, round)
    ensures forall i :: 0 <= i < |values| ==> round(s + i as real * d) == Rounded(values[i])
    ensures forall i, j :: 0 <= i < j < |values| ==> values[i] < values[j]
    ensures |values| > 0 && (|values| - 1) as real * d <= range < |values| as real * d
  {
    hide Times;
    forall i | 0 <= i < |values| ensures round(s + i as real * d) == Rounded(values[i]) {
      PlainProduct(i, d);
    }
    PlainProduct(|values| - 1, d);
    PlainProduct(|values|, d);
  }

  lemma PlainProduct(i: nat, d: real)
    ensures Times(i as real, d) == i as real * d
  {
  }
}
