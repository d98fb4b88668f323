/** The counters in the header line of a saved model.

    A counter is read from the rest of a line whose end is followed by a zero octet. */
module ModelHeader {
  import opened Bytes
  import opened Netstring
  import opened NgramStore

  const SPACE: Byte := 32
  const TAB: Byte := 9
  const LF: Byte := 10
  const CR: Byte := 13

  function At(text: Bytes, i: nat): Byte {
    if i < |text| then text[i] else 0
  }

  predicate Blank(b: Byte) {
    b == SPACE || b == TAB
  }

  // The rest of the line is only its end.
  predicate LineEnd(text: Bytes) {
    || (At(text, 0) == LF && At(text, 1) == 0)
    || (At(text, 0) == CR && At(text, 1) == LF && At(text, 2) == 0)
  }

  datatype Size = Size(value: nat, rest: Bytes) | TooLarge | NotASize

  /** What the counter at the head of the text means. */
  ghost function SizeAt(text: Bytes): Size {
    var k := LeadingDigits(text);
    LeadingAreDigits(text);
    var value := Value(text[..k]);
    if k == 0 then NotASize
    else if value > SIZE_MAX then TooLarge
    else if Blank(At(text[k..], 0)) || LineEnd(text[k..]) then Size(value, text[k..])
    else NotASize
  }

  lemma {:induction false} PrefixValue(digits: Bytes, n: nat)
    requires AllDigits(digits) && n <= |digits|
    ensures AllDigits(digits[..n]) && Value(digits[..n]) <= Value(digits)
  {
    if n < |digits| {
      PrefixValue(digits[..|digits| - 1], n);
      assert digits[..|digits| - 1][..n] == digits[..n];
    } else {
      assert digits[..n] == digits;
    }
  }

  lemma {:induction false} DigitsLead(text: Bytes, n: nat)
    requires n <= |text| && AllDigits(text[..n])
    ensures n <= LeadingDigits(text)
    ensures !IsDigit(At(text, n)) ==> n == LeadingDigits(text)
  {
    if n > 0 {
      assert text[0] == text[..n][0] && text[1..][..n - 1] == text[..n][1..];
      DigitsLead(text[1..], n - 1);
    }
  }

  /** Read one counter without ever computing a value that does not fit a machine size. */
  method ParseSize(text: Bytes) returns (r: Size)
    ensures r == SizeAt(text)
  {
    hide LineEnd;
    hide LeadingDigits;
    LeadingAreDigits(text);
    if !IsDigit(At(text, 0)) {
      DigitsLead(text, 0);
      return NotASize;
    }
    var parsed, scan := 0, 0;
    assert text[..0] == [];
    while IsDigit(At(text, scan))
      invariant scan <= |text| && AllDigits(text[..scan]) && parsed == Value(text[..scan]) <= SIZE_MAX
      invariant scan == 0 ==> IsDigit(At(text, 0))
      decreases |text| - scan
    {
      var digit := text[scan] as nat - 48;
      assert text[..scan + 1] == text[..scan] + [text[scan]];
      assert text[..scan + 1][..scan] == text[..scan];
      DigitsLead(text, scan + 1);
      if parsed > (SIZE_MAX - digit) / 10 {
        var digits := text[..LeadingDigits(text)];
        PrefixValue(digits, scan + 1);
        assert digits[..scan + 1] == text[..scan + 1];
        return TooLarge;
      }
      parsed, scan := parsed * 10 + digit, scan + 1;
    }
    DigitsLead(text, scan);
    if !Blank(At(text[scan..], 0)) && !LineEnd(text[scan..]) {
      return NotASize;
    }
    r := Size(parsed, text[scan..]);
  }

  function SkipBlanks(text: Bytes): Bytes
    decreases |text|
  {
    if text != [] && Blank(text[0]) then SkipBlanks(text[1..]) else text
  }

  datatype Sizes = Sizes(values: seq<nat>) | SomeTooLarge | NotSizes

  /** What the rest of a header line with n counters means. */
  ghost function SizesAt(text: Bytes, n: nat): (r: Sizes)
    requires n >= 1
    ensures r.Sizes? ==> |r.values| == n
    decreases n
  {
    match SizeAt(text)
    case TooLarge => SomeTooLarge
    case NotASize => NotSizes
    case Size(value, rest) =>
      if n == 1 then if LineEnd(rest) then Sizes([value]) else NotSizes
      else if !Blank(At(rest, 0)) then NotSizes
      else PrependSize([value], SizesAt(SkipBlanks(rest), n - 1))
  }

  ghost function PrependSize(values: seq<nat>, more: Sizes): Sizes {
    match more
    case Sizes(rest) => Sizes(values + rest)
    case _ => more
  }

  /** Read the n counters that end a header line. */
  method ParseSizes(text: Bytes, n: nat) returns (r: Sizes)
    requires n >= 1
    ensures r == SizesAt(text, n)
  {
    hide SizeAt;
    hide SkipBlanks;
    hide LineEnd;
    var values: seq<nat> := [];
    var rest := text;
    assert PrependSize([], SizesAt(text, n)) == SizesAt(text, n);
    for i := 0 to n
      invariant |values| == i
      invariant SizesAt(text, n) == if i < n then PrependSize(values, SizesAt(rest, n - i)) else
        if LineEnd(rest) then Sizes(values) else NotSizes
    {
      var size := ParseSize(rest);
      if size.TooLarge? {
        return SomeTooLarge;
      }
      if size.NotASize? {
        return NotSizes;
      }
      if i + 1 < n {
        if !Blank(At(size.rest, 0)) {
          return NotSizes;
        }
        PrependTwo(values, size.value, SizesAt(SkipBlanks(size.rest), n - i - 1));
      }
      values := values + [size.value];
      rest := if i + 1 < n then SkipBlanks(size.rest) else size.rest;
    }
    r := if LineEnd(rest) then Sizes(values) else NotSizes;
  }

  lemma PrependTwo(values: seq<nat>, value: nat, more: Sizes)
    ensures PrependSize(values, PrependSize([value], more)) == PrependSize(values + [value], more)
  {
    match more
    case Sizes(rest) => assert values + ([value] + rest) == values + [value] + rest;
    case _ =>
  }

  // ---- Writing ----

  function SizeLine(values: seq<nat>): Bytes
    requires values != []
  {
    Decimal(values[0]) + if |values| == 1 then [LF] else [SPACE] + SizeLine(values[1..])
  }

  lemma SizeRoundTrip(value: nat, tail: Bytes)
    requires value <= SIZE_MAX && tail != [] && (Blank(tail[0]) || LineEnd(tail))
    ensures SizeAt(Decimal(value) + tail) == Size(value, tail)
  {
    hide Decimal;
    DecimalDigits(value);
    var digits := Decimal(value);
    LeadingOf(digits, tail);
    assert (digits + tail)[..|digits|] == digits && (digits + tail)[|digits|..] == tail;
  }

  lemma LastSize(value: nat)
    requires value <= SIZE_MAX
    ensures SizesAt(Decimal(value) + [LF], 1) == Sizes([value])
  {
    hide SizeAt;
    hide Decimal;
    SizeRoundTrip(value, [LF]);
  }

  lemma FirstSize(value: nat, tail: Bytes, n: nat)
    requires value <= SIZE_MAX && n > 1 && SkipBlanks(tail) == tail
    ensures SizesAt(Decimal(value) + ([SPACE] + tail), n) == PrependSize([value], SizesAt(tail, n - 1))
  {
    hide SizeAt;
    hide Decimal;
    hide SkipBlanks;
    SizeRoundTrip(value, [SPACE] + tail);
    SkipOne(tail);
  }

  /** A reader gets back the counters a writer wrote. */
  lemma {:induction false} SizesRoundTrip(values: seq<nat>)
    requires values != [] && forall i :: 0 <= i < |values| ==> values[i] <= SIZE_MAX
    ensures SizesAt(SizeLine(values), |values|) == Sizes(values)
  {
    hide Decimal;
    hide SizesAt;
    hide SkipBlanks;
    if |values| == 1 {
      LastSize(values[0]);
      assert values == [values[0]];
    } else {
      SizesRoundTrip(values[1..]);
      StartsWithDigit(values[1..]);
      FirstSize(values[0], SizeLine(values[1..]), |values|);
      assert [values[0]] + values[1..] == values;
    }
  }

  lemma SkipOne(tail: Bytes)
    ensures SkipBlanks([SPACE] + tail) == SkipBlanks(tail)
  {
    assert ([SPACE] + tail)[1..] == tail;
  }

  lemma StartsWithDigit(values: seq<nat>)
    requires values != []
    ensures SizeLine(values) != [] && !Blank(SizeLine(values)[0])
    ensures SkipBlanks(SizeLine(values)) == SizeLine(values)
  {
    DecimalDigits(values[0]);
    assert IsDigit(Decimal(values[0])[0]);
  }

  /** Two counters on a line: "12 3" and a line feed are written; a tab, or a carriage return before the line feed,
      is also read. */
  lemma LineExamples()
    ensures SizeLine([12, 3]) == [49, 50, 32, 51, 10]
    ensures SizesAt([49, 50, 32, 51, 10], 2) == SizesAt([49, 50, 9, 51, 13, 10], 2) == Sizes([12, 3])
    ensures SizesAt([49, 50, 44, 51, 10], 2) == NotSizes
  {
    hide SizesAt;
    hide SizeLine;
    WrittenLine();
    SizesRoundTrip([12, 3]);
    TabLine();
    CommaLine();
  }

  lemma WrittenLine()
    ensures SizeLine([12, 3]) == [49, 50, 32, 51, 10]
  {
    hide Decimal;
    SmallDecimals();
    assert SizeLine([3]) == [51, 10];
    assert [12, 3][1..] == [3];
  }

  lemma TabLine()
    ensures SizesAt([49, 50, 9, 51, 13, 10], 2) == Sizes([12, 3])
  {
    hide Decimal;
    hide SizeAt;
    hide SkipBlanks;
    SmallDecimals();
    SizeRoundTrip(12, [9, 51, 13, 10]);
    SizeRoundTrip(3, [13, 10]);
    assert [49, 50] + [9, 51, 13, 10] == [49, 50, 9, 51, 13, 10] && [51] + [13, 10] == [51, 13, 10];
    assert SkipBlanks([9, 51, 13, 10]) == [51, 13, 10] by { SkipTab(); }
    assert SizesAt([51, 13, 10], 1) == Sizes([3]);
  }

  lemma CommaLine()
    ensures SizesAt([49, 50, 44, 51, 10], 2) == NotSizes
  {
    hide Decimal;
    SmallDecimals();
    var digits, tail: Bytes := [49, 50], [44, 51, 10];
    DecimalDigits(12);
    LeadingOf(digits, tail);
    assert digits + tail == [49, 50, 44, 51, 10];
    assert (digits + tail)[..2] == digits && (digits + tail)[2..] == tail;
  }

  lemma SmallDecimals()
    ensures Decimal(12) == [49, 50] && Decimal(3) == [51]
  {
  }

  lemma SkipTab()
    ensures SkipBlanks([9, 51, 13, 10]) == [51, 13, 10]
  {
    assert [9, 51, 13, 10][1..] == [51, 13, 10];
  }
}
