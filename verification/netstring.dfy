/** Canonical netstrings and the keys made of them.

    A record is the decimal length of its payload without leading zeros, a
    colon, the payload and a comma.  Keys are concatenations of records; the
    lemmas show that a key determines its components. */
module Netstring {
  import opened Bytes

  const COLON: Byte := 58
  const COMMA: Byte := 44
  const ZERO: Byte := 48

  const MAX_STAGE := 1023
  const MAX_KEY := 4 * (MAX_STAGE + 6)

  predicate IsDigit(b: Byte) {
    48 <= b <= 57
  }

  function Digit(d: nat): Byte
    requires d < 10
  {
    (48 + d) as Byte
  }

  function Decimal(n: nat): Bytes {
    if n < 10 then [Digit(n)] else Decimal(n / 10) + [Digit(n % 10)]
  }

  ghost predicate AllDigits(s: Bytes) {
    forall i :: 0 <= i < |s| ==> IsDigit(s[i])
  }

  function Value(s: Bytes): nat
    requires forall i :: 0 <= i < |s| ==> IsDigit(s[i])
  {
    if s == [] then 0
    else
      var last := s[|s| - 1];
      assert IsDigit(last);
      10 * Value(s[..|s| - 1]) + (last as int - 48)
  }

  // Decimal digits without a leading zero, except for zero itself.
  predicate Canonical(s: Bytes) {
    s != [] && (|s| > 1 ==> s[0] != ZERO)
  }

  lemma {:induction false} DecimalDigits(n: nat)
    ensures AllDigits(Decimal(n)) && Canonical(Decimal(n)) && Value(Decimal(n)) == n
    ensures n > 0 ==> Decimal(n)[0] != ZERO
  {
    if n >= 10 {
      DecimalDigits(n / 10);
      var front := Decimal(n / 10);
      assert Decimal(n)[..|front|] == front;
    } else {
      assert [Digit(n)][..0] == [];
    }
  }

  lemma {:induction false} DecimalOfValue(s: Bytes)
    requires AllDigits(s) && Canonical(s)
    ensures Decimal(Value(s)) == s
    ensures |s| > 1 ==> Value(s) >= 10
  {
    hide Decimal;
    hide Value;
    var front, last := s[..|s| - 1], s[|s| - 1];
    assert s == front + [last];
    assert IsDigit(last);
    LastDigit(s);
    if front == [] {
      OneDigit(last as nat - 48);
    } else {
      assert Canonical(front);
      DecimalOfValue(front);
      NonzeroValue(front);
      MoreDigits(Value(front), last as nat - 48);
    }
  }

  lemma LastDigit(s: Bytes)
    requires AllDigits(s) && s != []
    ensures AllDigits(s[..|s| - 1]) && IsDigit(s[|s| - 1])
    ensures Value(s) == 10 * Value(s[..|s| - 1]) + (s[|s| - 1] as int - 48) && Value([]) == 0
  {
  }

  lemma OneDigit(d: nat)
    requires d < 10
    ensures Decimal(d) == [Digit(d)]
  {
  }

  lemma MoreDigits(q: nat, d: nat)
    requires q > 0 && d < 10
    ensures Decimal(10 * q + d) == Decimal(q) + [Digit(d)]
  {
    assert (10 * q + d) / 10 == q && (10 * q + d) % 10 == d;
  }

  lemma {:induction false} NonzeroValue(s: Bytes)
    requires AllDigits(s) && s != [] && s[0] != ZERO
    ensures Value(s) > 0
  {
    if |s| > 1 {
      NonzeroValue(s[..|s| - 1]);
    } else {
      assert s[..0] == [];
    }
  }

  // ---- Records ----

  function Encode(payload: Bytes): Bytes {
    Decimal(|payload|) + [COLON] + payload + [COMMA]
  }

  function EncodeAll(items: seq<Bytes>): Bytes {
    if items == [] then [] else EncodeAll(items[..|items| - 1]) + Encode(items[|items| - 1])
  }

  function LeadingDigits(data: Bytes): (k: nat)
    ensures k <= |data|
  {
    if data == [] || !IsDigit(data[0]) then 0 else 1 + LeadingDigits(data[1..])
  }

  datatype Parsed = Record(payload: Bytes, rest: Bytes) | Malformed

  lemma {:induction false} LeadingAreDigits(data: Bytes)
    ensures AllDigits(data[..LeadingDigits(data)])
    ensures LeadingDigits(data) < |data| ==> !IsDigit(data[LeadingDigits(data)])
  {
    if data != [] && IsDigit(data[0]) {
      LeadingAreDigits(data[1..]);
      var k := LeadingDigits(data[1..]);
      assert data[..k + 1] == [data[0]] + data[1..][..k];
    }
  }

  lemma {:induction false} LeadingOf(digits: Bytes, rest: Bytes)
    requires AllDigits(digits) && rest != [] && !IsDigit(rest[0])
    ensures LeadingDigits(digits + rest) == |digits|
  {
    if digits == [] {
      assert digits + rest == rest;
    } else {
      assert (digits + rest)[1..] == digits[1..] + rest;
      LeadingOf(digits[1..], rest);
    }
  }

  // The next record of a nonempty input.
  function Next(data: Bytes): Parsed {
    var k := LeadingDigits(data);
    LeadingAreDigits(data);
    if k == |data| || data[k] != COLON || !Canonical(data[..k]) then Malformed
    else
      var n := Value(data[..k]);
      if |data| < k + n + 2 || data[k + 1 + n] != COMMA then Malformed
      else Record(data[k + 1..k + 1 + n], data[k + n + 2..])
  }

  /** The parser accepts exactly the canonical records. */
  lemma NextIsRecord(data: Bytes, payload: Bytes, rest: Bytes)
    ensures Next(data) == Record(payload, rest) <==> data == Encode(payload) + rest
  {
    if data == Encode(payload) + rest {
      EncodedIsParsed(payload, rest);
    }
    if Next(data) == Record(payload, rest) {
      ParsedIsEncoded(data);
    }
  }

  lemma EncodedIsParsed(payload: Bytes, rest: Bytes)
    ensures Next(Encode(payload) + rest) == Record(payload, rest)
  {
    hide Decimal;
    hide Value;
    hide LeadingDigits;
    var digits := Decimal(|payload|);
    var tail := [COLON] + payload + [COMMA] + rest;
    var data := Encode(payload) + rest;
    assert data == digits + tail;
    DecimalDigits(|payload|);
    LeadingOf(digits, tail);
    assert data[..|digits|] == digits;
    var k := |digits|;
    assert data[k..] == tail;
    assert tail[1..1 + |payload|] == payload && tail[|payload| + 2..] == rest;
    assert data[k + 1..k + 1 + |payload|] == tail[1..1 + |payload|];
    assert data[k + |payload| + 2..] == tail[|payload| + 2..];
    assert data[k + 1 + |payload|] == tail[1 + |payload|];
  }

  lemma ParsedIsEncoded(data: Bytes)
    requires Next(data).Record?
    ensures data == Encode(Next(data).payload) + Next(data).rest
  {
    hide Decimal;
    hide Value;
    hide LeadingDigits;
    var k := LeadingDigits(data);
    LeadingAreDigits(data);
    var n := Value(data[..k]);
    DecimalOfValue(data[..k]);
    var payload, rest := Next(data).payload, Next(data).rest;
    assert data[..k] == Decimal(|payload|);
    assert data[k..k + 1] == [COLON] && data[k + 1 + n..k + n + 2] == [COMMA];
    assert data == data[..k] + data[k..k + 1] + data[k + 1..k + 1 + n] + data[k + 1 + n..k + n + 2] + data[k + n + 2..];
  }

  // ---- Sequences of records ----

  lemma {:induction false} EncodeAllConcat(a: seq<Bytes>, b: seq<Bytes>)
    ensures EncodeAll(a + b) == EncodeAll(a) + EncodeAll(b)
  {
    hide Encode;
    if b == [] {
      assert a + b == a;
    } else {
      var front, last := b[..|b| - 1], b[|b| - 1];
      assert (a + b)[..|a + b| - 1] == a + front;
      EncodeAllConcat(a, front);
    }
  }

  lemma EncodeAllFirst(items: seq<Bytes>)
    requires items != []
    ensures EncodeAll(items) == Encode(items[0]) + EncodeAll(items[1..])
  {
    hide Encode;
    assert items == [items[0]] + items[1..];
    EncodeAllConcat([items[0]], items[1..]);
    assert [items[0]][..0] == [];
  }

  /** A concatenation of records determines the records. */
  lemma {:induction false} EncodeAllInjective(a: seq<Bytes>, b: seq<Bytes>)
    requires EncodeAll(a) == EncodeAll(b)
    ensures a == b
  {
    hide Encode;
    hide Next;
    EncodeNonempty(if a == [] then [] else a[0]);
    EncodeNonempty(if b == [] then [] else b[0]);
    if a != [] && b != [] {
      EncodeAllFirst(a);
      EncodeAllFirst(b);
      EncodedIsParsed(a[0], EncodeAll(a[1..]));
      EncodedIsParsed(b[0], EncodeAll(b[1..]));
      EncodeAllInjective(a[1..], b[1..]);
      assert a == [a[0]] + a[1..] && b == [b[0]] + b[1..];
    } else if a != [] {
      EncodeAllFirst(a);
    } else if b != [] {
      EncodeAllFirst(b);
    }
  }

  datatype Items = Valid(items: seq<Bytes>) | Invalid

  /** Read a whole input, one record at a time. */
  method Parse(data: Bytes) returns (r: Items)
    ensures r.Valid? ==> data == EncodeAll(r.items)
    ensures r.Invalid? ==> forall items :: data != EncodeAll(items)
  {
    hide Next;
    hide Encode;
    var items: seq<Bytes> := [];
    var rest := data;
    assert EncodeAll([]) + data == data;
    while rest != []
      invariant data == EncodeAll(items) + rest
      decreases |rest|
    {
      match Next(rest) {
        case Malformed =>
          forall whole | data == EncodeAll(whole) ensures false {
            SuffixIsRecords(whole, items, rest);
          }
          return Invalid;
        case Record(payload, more) =>
          NextIsRecord(rest, payload, more);
          EncodeNonempty(payload);
          assert (items + [payload])[..|items|] == items;
          items, rest := items + [payload], more;
      }
    }
    assert EncodeAll(items) + [] == EncodeAll(items);
    r := Valid(items);
  }

  lemma EncodeNonempty(payload: Bytes)
    ensures |Encode(payload)| >= |payload| + 3
  {
    DecimalDigits(|payload|);
  }

  // What is left of a record sequence after some records starts with a record.
  lemma {:induction false} SuffixIsRecords(whole: seq<Bytes>, items: seq<Bytes>, rest: Bytes)
    requires EncodeAll(whole) == EncodeAll(items) + rest && rest != []
    ensures Next(rest).Record?
  {
    hide Next;
    hide Encode;
    if items == [] {
      assert EncodeAll(items) + rest == rest;
      assert whole != [];
      EncodeAllFirst(whole);
      EncodedIsParsed(whole[0], EncodeAll(whole[1..]));
    } else {
      EncodeAllFirst(items);
      var tail := EncodeAll(items[1..]) + rest;
      assert EncodeAll(whole) == Encode(items[0]) + tail;
      EncodedIsParsed(items[0], tail);
      EncodeNonempty(items[0]);
      assert whole != [];
      EncodeAllFirst(whole);
      EncodedIsParsed(whole[0], EncodeAll(whole[1..]));
      SuffixIsRecords(whole[1..], items[1..], rest);
    }
  }

  // ---- Keys ----

  /** Write the items one after another into a bounded buffer; an item that does
      not fit makes the key empty. */
  method BuildKey(items: seq<Bytes>, capacity: nat) returns (key: Bytes)
    ensures key == if |EncodeAll(items)| <= capacity then EncodeAll(items) else []
  {
    hide Encode;
    key := [];
    for i := 0 to |items|
      invariant key == EncodeAll(items[..i]) && |key| <= capacity
    {
      assert items[..i + 1][..i] == items[..i];
      EncodeAllConcat(items[..i + 1], items[i + 1..]);
      assert items[..i + 1] + items[i + 1..] == items;
      if |Encode(items[i])| > capacity - |key| {
        return [];
      }
      key := key + Encode(items[i]);
    }
    assert items[..|items|] == items;
  }

  /** The length of the first components of a key; zero if it has fewer. */
  method PrefixLength(key: Bytes, components: nat) returns (length: nat)
    ensures forall items :: key == EncodeAll(items) && components <= |items| ==>
      length <= |key| && key[..length] == EncodeAll(items[..components])
  {
    hide Next;
    hide Encode;
    hide EncodeAll;
    length := 0;
    ghost var read: seq<Bytes> := [];
    EncodeNone();
    for i := 0 to components
      invariant length <= |key| && key[..length] == EncodeAll(read) && |read| == i
    {
      assert key == key[..length] + key[length..];
      var parsed := Next(key[length..]);
      forall items | key == EncodeAll(items) && components <= |items|
        ensures parsed.Record?
      {
        MoreRecords(items, read, key[length..]);
      }
      if parsed.Malformed? {
        return 0;
      }
      NextIsRecord(key[length..], parsed.payload, parsed.rest);
      ReadOneMore(read, parsed.payload, key, length, parsed.rest);
      length := |key| - |parsed.rest|;
      read := read + [parsed.payload];
    }
    forall items | key == EncodeAll(items) && components <= |items|
      ensures key[..length] == EncodeAll(items[..components])
    {
      ReadIsPrefix(items, read, key, length);
    }
  }

  lemma EncodeNone()
    ensures EncodeAll([]) == []
  {
  }

  lemma ReadOneMore(read: seq<Bytes>, payload: Bytes, key: Bytes, length: nat, rest: Bytes)
    requires length <= |key| && key[..length] == EncodeAll(read) && key[length..] == Encode(payload) + rest
    ensures |rest| <= |key| && key[..|key| - |rest|] == EncodeAll(read + [payload])
  {
    hide Encode;
    assert (read + [payload])[..|read|] == read;
    assert key == (EncodeAll(read) + Encode(payload)) + rest;
  }

  // A key that starts with the records in `read` starts with those components.
  lemma {:induction false} SharedPrefix(items: seq<Bytes>, read: seq<Bytes>, rest: Bytes)
    requires EncodeAll(items) == EncodeAll(read) + rest && |read| <= |items|
    ensures items[..|read|] == read && rest == EncodeAll(items[|read|..])
  {
    hide Encode;
    hide Next;
    if read == [] {
      assert EncodeAll(read) + rest == rest;
      assert items[0..] == items;
    } else {
      EncodeAllFirst(items);
      EncodeAllFirst(read);
      var tail := EncodeAll(read[1..]) + rest;
      assert EncodeAll(items) == Encode(read[0]) + tail;
      EncodedIsParsed(items[0], EncodeAll(items[1..]));
      EncodedIsParsed(read[0], tail);
      SharedPrefix(items[1..], read[1..], rest);
      assert items[..|read|] == [items[0]] + items[1..][..|read| - 1];
      assert read == [read[0]] + read[1..];
      assert items[|read|..] == items[1..][|read| - 1..];
    }
  }

  lemma MoreRecords(items: seq<Bytes>, read: seq<Bytes>, rest: Bytes)
    requires EncodeAll(items) == EncodeAll(read) + rest && |read| < |items|
    ensures Next(rest).Record?
  {
    hide Next;
    SharedPrefix(items, read, rest);
    EncodeAllFirst(items[|read|..]);
    EncodedIsParsed(items[|read|], EncodeAll(items[|read|..][1..]));
  }

  lemma ReadIsPrefix(items: seq<Bytes>, read: seq<Bytes>, key: Bytes, length: nat)
    requires key == EncodeAll(items) && |read| <= |items| && length <= |key| && key[..length] == EncodeAll(read)
    ensures key[..length] == EncodeAll(items[..|read|])
  {
    hide EncodeAll;
    assert key == key[..length] + key[length..];
    SharedPrefix(items, read, key[length..]);
  }

  lemma {:induction false} DecimalLength(n: nat)
    ensures n < 10 ==> |Decimal(n)| == 1
    ensures n < 10000 ==> |Decimal(n)| <= 4
  {
    assert n >= 10 ==> |Decimal(n)| == |Decimal(n / 10)| + 1;
    assert n >= 100 ==> |Decimal(n / 10)| == |Decimal(n / 100)| + 1;
    assert n >= 1000 ==> |Decimal(n / 100)| == |Decimal(n / 1000)| + 1;
  }

  // Every item has the length that may be learned.
  ghost predicate Learnable(items: seq<Bytes>) {
    forall i :: 0 <= i < |items| ==> |items[i]| <= MAX_STAGE
  }

  // The length of a record.
  function EncodedLength(length: nat): nat {
    |Decimal(length)| + length + 2
  }

  lemma SingleLength(stage: Bytes)
    ensures |EncodeAll([stage])| == EncodedLength(|stage|)
  {
    assert [stage][..0] == [];
  }

  /** The key of a single stage too long to be learned fits the buffer exactly up to
      six bytes less than the buffer. */
  lemma LongStageFits(stage: Bytes)
    requires |stage| > 1023
    ensures |EncodeAll([stage])| <= MAX_KEY <==> |stage| <= 4110
  {
    hide Decimal;
    hide EncodeAll;
    SingleLength(stage);
    if |stage| < 10000 {
      FourDigits(|stage|);
    }
  }

  lemma FourDigits(n: nat)
    requires 1000 <= n < 10000
    ensures |Decimal(n)| == 4
  {
    assert |Decimal(n / 1000)| == 1;
    assert |Decimal(n / 100)| == 2 && n / 100 / 10 == n / 1000;
    assert |Decimal(n / 10)| == 3 && n / 10 / 10 == n / 100;
  }

  /** A stage of 1024 bytes cannot be learned, but its key fits the buffer. */
  lemma StageThatFits()
    ensures exists stage: Bytes :: |stage| > 1023 && |EncodeAll([stage])| <= 4116
  {
    var stage := seq(1024, (_: int) => ZERO);
    LongStageFits(stage);
  }

  /** The record of three bytes: "3:abc,". */
  lemma EncodeExample()
    ensures Encode([97, 98, 99]) == [51, 58, 97, 98, 99, 44] && Encode([]) == [48, 58, 44]
    ensures EncodeAll([[97, 98, 99], []]) == [51, 58, 97, 98, 99, 44, 48, 58, 44]
  {
    var abc: Bytes := [97, 98, 99];
    assert [abc, []][..1] == [abc] && [abc][..0] == [];
    assert EncodeAll([abc]) == Encode(abc);
  }

  /** Up to four learnable stages always fit the key buffer. */
  lemma {:induction false} KeyFits(items: seq<Bytes>)
    requires Learnable(items)
    ensures |EncodeAll(items)| <= |items| * (MAX_STAGE + 6)
  {
    if items != [] {
      KeyFits(items[..|items| - 1]);
      DecimalLength(|items[|items| - 1]|);
    }
  }
}
