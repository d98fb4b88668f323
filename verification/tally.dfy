/** What a list of count records adds up to, whatever its order. */
module Tally {
  import opened Bytes
  import opened NgramStore
  import opened Records
  import opened Reordering

  function AddCount(m: Table, key: Bytes, count: nat): Table {
    m[key := Count(m, key) + count]
  }

  // The table of one order after all records.
  ghost function TallyOf(records: seq<Rec>, kind: nat): Table {
    if records == [] then map[]
    else
      var before, last := TallyOf(records[..|records| - 1], kind), records[|records| - 1];
      if last.kind == kind then AddCount(before, last.key, last.count) else before
  }

  ghost function TotalOf(records: seq<Rec>, kind: nat): nat {
    if records == [] then 0
    else
      var last := records[|records| - 1];
      TotalOf(records[..|records| - 1], kind) + if last.kind == kind then last.count else 0
  }

  // The sum of the counts given to one key of one order.
  ghost function KeySum(records: seq<Rec>, kind: nat, key: Bytes): nat {
    if records == [] then 0
    else
      var last := records[|records| - 1];
      KeySum(records[..|records| - 1], kind, key) + if last.kind == kind && last.key == key then last.count else 0
  }

  ghost predicate AllValid(records: seq<Rec>) {
    forall i :: 0 <= i < |records| ==> ValidRec(records[i])
  }

  lemma TallyMore(records: seq<Rec>, r: Rec, kind: nat)
    ensures TallyOf(records + [r], kind) ==
      if r.kind == kind then AddCount(TallyOf(records, kind), r.key, r.count) else TallyOf(records, kind)
    ensures TotalOf(records + [r], kind) == TotalOf(records, kind) + if r.kind == kind then r.count else 0
  {
    assert (records + [r])[..|records|] == records;
  }

  lemma {:induction false} TallyCounts(records: seq<Rec>, kind: nat, key: Bytes)
    requires AllValid(records)
    ensures Count(TallyOf(records, kind), key) == KeySum(records, kind, key)
    ensures key in TallyOf(records, kind) <==> KeySum(records, kind, key) > 0
  {
    hide KeyOf;
    if records != [] {
      TallyCounts(records[..|records| - 1], kind, key);
    }
  }

  lemma {:induction false} TallyKeyed(records: seq<Rec>, kind: nat)
    requires AllValid(records)
    ensures WellKeyed(TallyOf(records, kind), kind)
  {
    hide KeyOf;
    if records != [] {
      TallyKeyed(records[..|records| - 1], kind);
    }
  }

  lemma AddCountSum(m: Table, key: Bytes, count: nat)
    ensures SumOver(AddCount(m, key, count).Keys, AddCount(m, key, count)) == SumOver(m.Keys, m) + count
  {
    var more := AddCount(m, key, count);
    SumRemove(more.Keys, more, key);
    if key in m {
      assert more.Keys == m.Keys;
      SumRemove(m.Keys, m, key);
      SumSame(m.Keys - {key}, m, more);
    } else {
      assert more.Keys - {key} == m.Keys;
      SumSame(m.Keys, m, more);
    }
  }

  lemma {:induction false} TallySum(records: seq<Rec>, kind: nat)
    ensures SumOver(TallyOf(records, kind).Keys, TallyOf(records, kind)) == TotalOf(records, kind)
  {
    if records != [] {
      var front, last := records[..|records| - 1], records[|records| - 1];
      TallySum(front, kind);
      AddCountSum(TallyOf(front, kind), last.key, last.count);
    }
  }

  lemma {:induction false} TallyGrows(records: seq<Rec>, more: seq<Rec>, kind: nat, key: Bytes)
    ensures Count(TallyOf(records, kind), key) <= Count(TallyOf(records + more, kind), key)
    ensures TotalOf(records, kind) <= TotalOf(records + more, kind)
  {
    if more == [] {
      assert records + more == records;
    } else {
      var front := more[..|more| - 1];
      TallyGrows(records, front, kind, key);
      assert records + more == (records + front) + [more[|more| - 1]];
      TallyMore(records + front, more[|more| - 1], kind);
    }
  }

  /** Only the sum given to every key matters. */
  lemma OnlySumsMatter(a: seq<Rec>, b: seq<Rec>, kind: nat)
    requires AllValid(a) && AllValid(b)
    requires forall key :: KeySum(a, kind, key) == KeySum(b, kind, key)
    ensures TallyOf(a, kind) == TallyOf(b, kind) && TotalOf(a, kind) == TotalOf(b, kind)
  {
    hide TallyOf;
    hide KeySum;
    forall key
      ensures Count(TallyOf(a, kind), key) == Count(TallyOf(b, kind), key)
      ensures key in TallyOf(a, kind) <==> key in TallyOf(b, kind)
    {
      TallyCounts(a, kind, key);
      TallyCounts(b, kind, key);
    }
    SameCounts(TallyOf(a, kind), TallyOf(b, kind));
    TallySum(a, kind);
    TallySum(b, kind);
  }

  lemma SameCounts(m: Table, n: Table)
    requires forall key :: Count(m, key) == Count(n, key) && (key in m <==> key in n)
    ensures m == n
  {
    forall key | key in m ensures key in n && m[key] == n[key] {
      assert Count(m, key) == Count(n, key);
    }
    assert m.Keys == n.Keys;
  }

  lemma {:induction false} KeySumConcat(a: seq<Rec>, b: seq<Rec>, kind: nat, key: Bytes)
    ensures KeySum(a + b, kind, key) == KeySum(a, kind, key) + KeySum(b, kind, key)
  {
    if b == [] {
      assert a + b == a;
    } else {
      var front := b[..|b| - 1];
      assert (a + b)[..|a + b| - 1] == a + front;
      KeySumConcat(a, front, kind, key);
    }
  }

  lemma KeySumOne(r: Rec, kind: nat, key: Bytes)
    ensures KeySum([r], kind, key) == if r.kind == kind && r.key == key then r.count else 0
  {
    assert [r][..0] == [];
  }

  /** Reordering records does not change what they add up to. */
  lemma {:induction false} Reordered(a: seq<Rec>, b: seq<Rec>, kind: nat, key: Bytes)
    requires multiset(a) == multiset(b)
    ensures KeySum(a, kind, key) == KeySum(b, kind, key)
    decreases |a|
  {
    hide KeySum;
    if a == [] {
      SameLength(a, b);
    } else {
      var i := TakeOut(a, b);
      var before, after := b[..i], b[i + 1..];
      assert a == [a[0]] + a[1..] && b == before + [a[0]] + after;
      Reordered(a[1..], before + after, kind, key);
      KeySumConcat([a[0]], a[1..], kind, key);
      KeySumConcat(before, after, kind, key);
      KeySumConcat(before + [a[0]], after, kind, key);
      KeySumConcat(before, [a[0]], kind, key);
    }
  }

  /** A record may be split in two, wherever the parts stand. */
  lemma Split(a: seq<Rec>, m: seq<Rec>, b: seq<Rec>, r: Rec, part: nat, kind: nat, key: Bytes)
    requires part <= r.count
    ensures KeySum(a + [r] + m + b, kind, key)
      == KeySum(a + [r.(count := part)] + m + [r.(count := r.count - part)] + b, kind, key)
  {
    hide KeySum;
    var one, two := r.(count := part), r.(count := r.count - part);
    KeySumOne(r, kind, key);
    KeySumOne(one, kind, key);
    KeySumOne(two, kind, key);
    KeySumConcat(a, [r], kind, key);
    KeySumConcat(a + [r], m, kind, key);
    KeySumConcat(a + [r] + m, b, kind, key);
    KeySumConcat(a, [one], kind, key);
    KeySumConcat(a + [one], m, kind, key);
    KeySumConcat(a + [one] + m, [two], kind, key);
    KeySumConcat(a + [one] + m + [two], b, kind, key);
  }
}
