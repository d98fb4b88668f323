/** Area under the curve: sorting and sweeping groups of ties against counting all pairs. */
module EmpiricalAuc {
  import opened Arithmetic
  import opened Reordering

  /** A floating-point score. */
  datatype Score = NotANumber | MinusInfinity | Real(value: real) | PlusInfinity

  datatype Entry = Entry(score: Score, synthetic: bool)

  function Rank(s: Score): int {
    if s.MinusInfinity? then 0 else if s.Real? then 1 else 2
  }

  // The order of scores that are numbers.
  predicate Below(a: Score, b: Score) {
    Rank(a) < Rank(b) || (a.Real? && b.Real? && a.value < b.value)
  }

  // ---- The definition over all pairs ----

  // Twice the credit of a pair: two for a win of the synthetic score, one for a tie.
  function Credit(synthetic: Score, normal: Score): nat {
    if Below(normal, synthetic) then 2 else if normal == synthetic then 1 else 0
  }

  ghost function Against(normal: seq<Score>, synthetic: Score): nat {
    if normal == [] then 0 else Against(normal[..|normal| - 1], synthetic) + Credit(synthetic, normal[|normal| - 1])
  }

  /** Twice the number of pairs won by the synthetic score, ties counting half. */
  ghost function AllPairs(normal: seq<Score>, synthetic: seq<Score>): nat {
    if synthetic == [] then 0
    else AllPairs(normal, synthetic[..|synthetic| - 1]) + Against(normal, synthetic[|synthetic| - 1])
  }

  lemma {:induction false} AgainstConcat(a: seq<Score>, b: seq<Score>, s: Score)
    ensures Against(a + b, s) == Against(a, s) + Against(b, s)
  {
    hide Credit;
    if b == [] {
      assert a + b == a;
    } else {
      assert (a + b)[..|a + b| - 1] == a + b[..|b| - 1];
      AgainstConcat(a, b[..|b| - 1], s);
    }
  }

  lemma {:induction false} PairsConcat(n: seq<Score>, a: seq<Score>, b: seq<Score>)
    ensures AllPairs(n, a + b) == AllPairs(n, a) + AllPairs(n, b)
  {
    hide Against;
    if b == [] {
      assert a + b == a;
    } else {
      assert (a + b)[..|a + b| - 1] == a + b[..|b| - 1];
      PairsConcat(n, a, b[..|b| - 1]);
    }
  }

  lemma {:induction false} PairsConcatNormal(a: seq<Score>, b: seq<Score>, s: seq<Score>)
    ensures AllPairs(a + b, s) == AllPairs(a, s) + AllPairs(b, s)
  {
    hide Against;
    if s != [] {
      PairsConcatNormal(a, b, s[..|s| - 1]);
      AgainstConcat(a, b, s[|s| - 1]);
    }
  }

  // Every pair has the same credit.
  ghost predicate Uniform(normal: seq<Score>, synthetic: seq<Score>, credit: nat) {
    forall i, j :: 0 <= i < |normal| && 0 <= j < |synthetic| ==> Credit(synthetic[j], normal[i]) == credit
  }

  lemma {:induction false} AgainstUniform(normal: seq<Score>, s: Score, credit: nat)
    requires forall i :: 0 <= i < |normal| ==> Credit(s, normal[i]) == credit
    ensures Against(normal, s) == credit * |normal|
  {
    hide Credit;
    if normal != [] {
      AgainstUniform(normal[..|normal| - 1], s, credit);
    }
  }

  lemma {:induction false} PairsUniform(normal: seq<Score>, synthetic: seq<Score>, credit: nat)
    requires Uniform(normal, synthetic, credit)
    ensures AllPairs(normal, synthetic) == credit * (|normal| * |synthetic|)
  {
    hide Credit;
    if synthetic == [] {
      assert |normal| * |synthetic| == 0;
    } else {
      var front := synthetic[..|synthetic| - 1];
      PairsUniform(normal, front, credit);
      AgainstUniform(normal, synthetic[|synthetic| - 1], credit);
      OneMoreColumn(credit, |normal|, |front|);
    }
  }

  lemma OneMoreColumn(c: nat, n: nat, m: nat)
    ensures c * (n * m) + c * n == c * (n * (m + 1))
  {
  }

  // ---- Reordering does not matter ----

  lemma {:induction false} AgainstReordered(a: seq<Score>, b: seq<Score>, s: Score)
    requires multiset(a) == multiset(b)
    ensures Against(a, s) == Against(b, s)
    decreases |a|
  {
    hide Against;
    if a == [] {
      SameLength(a, b);
    } else {
      var i := TakeOut(a, b);
      assert a == [a[0]] + a[1..] && b == b[..i] + [a[0]] + b[i + 1..];
      AgainstReordered(a[1..], b[..i] + b[i + 1..], s);
      AgainstConcat([a[0]], a[1..], s);
      AgainstConcat(b[..i], b[i + 1..], s);
      AgainstConcat(b[..i] + [a[0]], b[i + 1..], s);
      AgainstConcat(b[..i], [a[0]], s);
    }
  }

  lemma {:induction false} PairsReorderedNormal(a: seq<Score>, b: seq<Score>, s: seq<Score>)
    requires multiset(a) == multiset(b)
    ensures AllPairs(a, s) == AllPairs(b, s)
  {
    hide Against;
    if s != [] {
      PairsReorderedNormal(a, b, s[..|s| - 1]);
      AgainstReordered(a, b, s[|s| - 1]);
    }
  }

  lemma {:induction false} PairsReordered(n: seq<Score>, a: seq<Score>, b: seq<Score>)
    requires multiset(a) == multiset(b)
    ensures AllPairs(n, a) == AllPairs(n, b)
    decreases |a|
  {
    hide AllPairs;
    if a == [] {
      SameLength(a, b);
    } else {
      var i := TakeOut(a, b);
      assert a == [a[0]] + a[1..] && b == b[..i] + [a[0]] + b[i + 1..];
      PairsReordered(n, a[1..], b[..i] + b[i + 1..]);
      PairsConcat(n, [a[0]], a[1..]);
      PairsConcat(n, b[..i], b[i + 1..]);
      PairsConcat(n, b[..i] + [a[0]], b[i + 1..]);
      PairsConcat(n, b[..i], [a[0]]);
    }
  }

  // ---- Entries ----

  // The scores of one kind, in order.
  ghost function Of(entries: seq<Entry>, synthetic: bool): seq<Score> {
    if entries == [] then []
    else
      var front, last := Of(entries[..|entries| - 1], synthetic), entries[|entries| - 1];
      if last.synthetic == synthetic then front + [last.score] else front
  }

  lemma OfMore(entries: seq<Entry>, e: Entry, kind: bool)
    ensures Of(entries + [e], kind) == if e.synthetic == kind then Of(entries, kind) + [e.score] else Of(entries, kind)
  {
    assert (entries + [e])[..|entries|] == entries;
  }

  lemma {:induction false} OfConcat(a: seq<Entry>, b: seq<Entry>, kind: bool)
    ensures Of(a + b, kind) == Of(a, kind) + Of(b, kind)
  {
    if b == [] {
      assert a + b == a;
    } else {
      var front, last := b[..|b| - 1], b[|b| - 1];
      assert a + b == (a + front) + [last];
      OfConcat(a, front, kind);
      OfMore(a + front, last, kind);
    }
  }

  lemma {:induction false} OfReordered(a: seq<Entry>, b: seq<Entry>, kind: bool)
    requires multiset(a) == multiset(b)
    ensures multiset(Of(a, kind)) == multiset(Of(b, kind))
    decreases |a|
  {
    hide Of;
    if a == [] {
      SameLength(a, b);
    } else {
      var i := TakeOut(a, b);
      assert a == [a[0]] + a[1..] && b == b[..i] + [a[0]] + b[i + 1..];
      OfReordered(a[1..], b[..i] + b[i + 1..], kind);
      OfConcat([a[0]], a[1..], kind);
      OfConcat(b[..i], b[i + 1..], kind);
      OfConcat(b[..i] + [a[0]], b[i + 1..], kind);
      OfConcat(b[..i], [a[0]], kind);
    }
  }

  lemma {:induction false} OfMembers(entries: seq<Entry>, kind: bool)
    ensures forall s :: s in Of(entries, kind) ==> exists e :: e in entries && e.score == s && e.synthetic == kind
  {
    if entries != [] {
      OfMembers(entries[..|entries| - 1], kind);
    }
  }

  // ---- Sorting ----

  ghost predicate Sorted(entries: seq<Entry>) {
    forall i, j :: 0 <= i < j < |entries| ==> !Below(entries[j].score, entries[i].score)
  }

  ghost predicate Numbers(entries: seq<Entry>) {
    forall i :: 0 <= i < |entries| ==> !entries[i].score.NotANumber?
  }

  /** Put one entry at its place in a sorted list. */
  method Insert(sorted: seq<Entry>, e: Entry) returns (r: seq<Entry>)
    requires Sorted(sorted) && Numbers(sorted) && !e.score.NotANumber?
    ensures Sorted(r) && Numbers(r) && multiset(r) == multiset(sorted) + multiset{e}
  {
    hide Below;
    var p := |sorted|;
    while p > 0 && Below(e.score, sorted[p - 1].score)
      invariant 0 <= p <= |sorted|
      invariant forall k :: p <= k < |sorted| ==> Below(e.score, sorted[k].score)
    {
      p := p - 1;
    }
    r := sorted[..p] + [e] + sorted[p..];
    NoneAbove(sorted, p, e);
    InsertedSorted(sorted, p, e);
    InsertedElements(sorted, p, e);
  }

  lemma BelowLaws(a: Score, b: Score, c: Score)
    ensures Below(a, b) ==> !Below(b, a)
    ensures Below(a, b) && !Below(c, b) && !c.NotANumber? ==> Below(a, c)
  {
  }

  lemma NoneAbove(sorted: seq<Entry>, p: nat, e: Entry)
    requires Sorted(sorted) && Numbers(sorted) && p <= |sorted| && (p > 0 ==> !Below(e.score, sorted[p - 1].score))
    ensures forall k :: 0 <= k < p ==> !Below(e.score, sorted[k].score)
  {
    hide Below;
    forall k | 0 <= k < p ensures !Below(e.score, sorted[k].score) {
      BelowLaws(e.score, sorted[k].score, sorted[p - 1].score);
    }
  }

  lemma InsertedSorted(sorted: seq<Entry>, p: nat, e: Entry)
    requires Sorted(sorted) && p <= |sorted| && forall k :: 0 <= k < p ==> !Below(e.score, sorted[k].score)
    requires forall k :: p <= k < |sorted| ==> Below(e.score, sorted[k].score)
    ensures Sorted(sorted[..p] + [e] + sorted[p..])
  {
    hide Below;
    forall k | p <= k < |sorted| ensures !Below(sorted[k].score, e.score) {
      BelowLaws(e.score, sorted[k].score, e.score);
    }
  }

  lemma InsertedElements(sorted: seq<Entry>, p: nat, e: Entry)
    requires Numbers(sorted) && p <= |sorted| && !e.score.NotANumber?
    ensures Numbers(sorted[..p] + [e] + sorted[p..])
    ensures multiset(sorted[..p] + [e] + sorted[p..]) == multiset(sorted) + multiset{e}
  {
    assert sorted == sorted[..p] + sorted[p..];
  }

  /** Order entries by score; entries with equal scores may come in any order. */
  method Sort(entries: seq<Entry>) returns (r: seq<Entry>)
    requires Numbers(entries)
    ensures Sorted(r) && Numbers(r) && multiset(r) == multiset(entries)
  {
    r := [];
    for i := 0 to |entries|
      invariant Sorted(r) && Numbers(r) && multiset(r) == multiset(entries[..i])
    {
      assert entries[..i + 1] == entries[..i] + [entries[i]];
      r := Insert(r, entries[i]);
    }
    assert entries[..|entries|] == entries;
  }

  // ---- The sweep ----

  // Everything before `first` is below everything from there on.
  ghost predicate Separated(entries: seq<Entry>, first: nat) {
    forall i, j :: 0 <= i < first <= j < |entries| ==> Below(entries[i].score, entries[j].score)
  }

  // What the entries before `first` contribute.
  ghost function Swept(entries: seq<Entry>, first: nat): nat
    requires first <= |entries|
  {
    AllPairs(Of(entries[..first], false), Of(entries[..first], true))
  }

  /** One group of ties adds its wins over the lower normal scores and its own ties. */
  lemma GroupAdds(entries: seq<Entry>, first: nat, last: nat)
    requires first < last <= |entries| && Separated(entries, first)
    requires forall k :: first <= k < last ==> entries[k].score == entries[first].score && !entries[k].score.NotANumber?
    ensures var normals, synthetics := Of(entries[first..last], false), Of(entries[first..last], true);
      && Swept(entries, last) == Swept(entries, first)
           + 2 * (|Of(entries[..first], false)| * |synthetics|) + |normals| * |synthetics|
      && |Of(entries[..last], false)| == |Of(entries[..first], false)| + |normals|
  {
    hide AllPairs;
    hide Of;
    hide Credit;
    var before, group := entries[..first], entries[first..last];
    assert entries[..last] == before + group;
    OfConcat(before, group, false);
    OfConcat(before, group, true);
    var lowNormal, lowSynthetic := Of(before, false), Of(before, true);
    var normals, synthetics := Of(group, false), Of(group, true);
    PairsConcat(lowNormal + normals, lowSynthetic, synthetics);
    PairsConcatNormal(lowNormal, normals, lowSynthetic);
    PairsConcatNormal(lowNormal, normals, synthetics);
    GroupCredits(entries, first, last);
    PairsUniform(lowNormal, synthetics, 2);
    PairsUniform(normals, synthetics, 1);
    PairsUniform(normals, lowSynthetic, 0);
  }

  lemma GroupCredits(entries: seq<Entry>, first: nat, last: nat)
    requires first < last <= |entries| && Separated(entries, first)
    requires forall k :: first <= k < last ==> entries[k].score == entries[first].score && !entries[k].score.NotANumber?
    ensures Uniform(Of(entries[..first], false), Of(entries[first..last], true), 2)
    ensures Uniform(Of(entries[first..last], false), Of(entries[first..last], true), 1)
    ensures Uniform(Of(entries[first..last], false), Of(entries[..first], true), 0)
  {
    hide Of;
    OfMembers(entries[..first], false);
    OfMembers(entries[..first], true);
    OfMembers(entries[first..last], false);
    OfMembers(entries[first..last], true);
    var score := entries[first].score;
    var before, group := entries[..first], entries[first..last];
    assert forall e :: e in group ==> e.score == score;
    assert forall e :: e in before ==> Below(e.score, score);
    UniformFrom(Of(before, false), Of(group, true), 2);
    UniformFrom(Of(group, false), Of(group, true), 1);
    UniformFrom(Of(group, false), Of(before, true), 0);
  }

  lemma UniformFrom(normal: seq<Score>, synthetic: seq<Score>, credit: nat)
    requires forall n, s :: n in normal && s in synthetic ==> Credit(s, n) == credit
    ensures Uniform(normal, synthetic, credit)
  {
    hide Credit;
  }

  lemma NextSeparated(entries: seq<Entry>, first: nat, last: nat)
    requires first < last <= |entries| && Separated(entries, first) && Sorted(entries) && Numbers(entries)
    requires forall k :: first <= k < last ==> entries[k].score == entries[first].score
    requires last < |entries| ==> entries[last].score != entries[first].score
    ensures Separated(entries, last)
  {
  }

  /** Sweep the groups of ties of a sorted list from the bottom. */
  method Sweep(entries: seq<Entry>) returns (wins: real)
    requires Sorted(entries) && Numbers(entries)
    ensures 2.0 * wins == Swept(entries, |entries|) as real
  {
    hide Swept;
    hide Below;
    wins := 0.0;
    var normalBelow: nat, first: nat := 0, 0;
    NothingSwept(entries);
    while first < |entries|
      invariant first <= |entries| && Separated(entries, first)
      invariant 2.0 * wins == Swept(entries, first) as real && normalBelow == |Of(entries[..first], false)|
      decreases |entries| - first
    {
      var last, groupNormal, groupSynthetic := GroupAt(entries, first);
      GroupAdds(entries, first, last);
      NextSeparated(entries, first, last);
      Credited(groupSynthetic, normalBelow, groupNormal);
      wins := wins + (Times(groupSynthetic as real, normalBelow as real)
                      + Times(0.5, Times(groupSynthetic as real, groupNormal as real)));
      normalBelow := normalBelow + groupNormal;
      first := last;
    }
  }

  method GroupAt(entries: seq<Entry>, first: nat) returns (last: nat, groupNormal: nat, groupSynthetic: nat)
    requires first < |entries|
    ensures first < last <= |entries|
    ensures forall k :: first <= k < last ==> entries[k].score == entries[first].score
    ensures last < |entries| ==> entries[last].score != entries[first].score
    ensures groupNormal == |Of(entries[first..last], false)| && groupSynthetic == |Of(entries[first..last], true)|
  {
    last, groupNormal, groupSynthetic := first, 0, 0;
    while last < |entries| && entries[last].score == entries[first].score
      invariant first <= last <= |entries|
      invariant forall k :: first <= k < last ==> entries[k].score == entries[first].score
      invariant groupNormal == |Of(entries[first..last], false)| && groupSynthetic == |Of(entries[first..last], true)|
    {
      assert entries[first..last + 1] == entries[first..last] + [entries[last]];
      OfMore(entries[first..last], entries[last], false);
      OfMore(entries[first..last], entries[last], true);
      if entries[last].synthetic {
        groupSynthetic := groupSynthetic + 1;
      } else {
        groupNormal := groupNormal + 1;
      }
      last := last + 1;
    }
  }

  lemma NothingSwept(entries: seq<Entry>)
    ensures Swept(entries, 0) == 0 && Of(entries[..0], false) == []
  {
  }

  lemma Credited(s: nat, below: nat, n: nat)
    ensures 2.0 * (Times(s as real, below as real) + Times(0.5, Times(s as real, n as real)))
      == (2 * (below * s) + n * s) as real
  {
    TimesIntegers(s, below);
    TimesIntegers(s, n);
    assert s * below == below * s && s * n == n * s;
  }

  // ---- The whole computation ----

  method Collect(normal: seq<Score>, synthetic: seq<Score>) returns (ok: bool, entries: seq<Entry>)
    ensures ok <==> NotANumber !in normal && NotANumber !in synthetic
    ensures ok ==> Numbers(entries) && Of(entries, false) == normal && Of(entries, true) == synthetic
  {
    entries := [];
    for i := 0 to |normal|
      invariant NotANumber !in normal[..i] && Numbers(entries)
      invariant Of(entries, false) == normal[..i] && Of(entries, true) == []
    {
      if normal[i].NotANumber? {
        return false, [];
      }
      var e := Entry(normal[i], false);
      OfMore(entries, e, false);
      OfMore(entries, e, true);
      assert normal[..i + 1] == normal[..i] + [normal[i]];
      entries := entries + [e];
    }
    assert normal[..|normal|] == normal;
    for i := 0 to |synthetic|
      invariant NotANumber !in synthetic[..i] && Numbers(entries)
      invariant Of(entries, false) == normal && Of(entries, true) == synthetic[..i]
    {
      if synthetic[i].NotANumber? {
        return false, [];
      }
      var e := Entry(synthetic[i], true);
      OfMore(entries, e, false);
      OfMore(entries, e, true);
      assert synthetic[..i + 1] == synthetic[..i] + [synthetic[i]];
      entries := entries + [e];
    }
    assert synthetic[..|synthetic|] == synthetic;
    ok := true;
  }

  /** The share of pairs in which the synthetic score is greater, with half credit for ties. */
  method Auc(normal: seq<Score>, synthetic: seq<Score>, noMemory: bool) returns (ok: bool, auc: real)
    ensures !noMemory ==> (ok <==> normal != [] && synthetic != [] && NotANumber !in normal && NotANumber !in synthetic)
    ensures ok ==> normal != [] && synthetic != []
    ensures ok ==> auc == Ratio(AllPairs(normal, synthetic) as real, (2 * (|normal| * |synthetic|)) as real)
    ensures ok ==> 0.0 <= auc <= 1.0
  {
    hide AllPairs;
    hide Of;
    hide Sorted;
    hide Numbers;
    ok, auc := false, 0.0;
    if normal == [] || synthetic == [] || noMemory {
      return;
    }
    var entries;
    ok, entries := Collect(normal, synthetic);
    if !ok {
      return;
    }
    var sorted := Sort(entries);
    var wins := Sweep(sorted);
    assert sorted[..|sorted|] == sorted;
    OfReordered(sorted, entries, false);
    OfReordered(sorted, entries, true);
    PairsReorderedNormal(Of(sorted, false), normal, Of(sorted, true));
    PairsReordered(normal, Of(sorted, true), synthetic);
    PairsBounded(normal, synthetic);
    SomePairs(|normal|, |synthetic|);
    Halves(wins, AllPairs(normal, synthetic), |normal| * |synthetic|);
    auc := Ratio(wins, Times(|normal| as real, |synthetic| as real));
  }

  lemma SomePairs(n: nat, s: nat)
    requires n > 0 && s > 0
    ensures n * s > 0 && Times(n as real, s as real) == (n * s) as real
  {
    TimesIntegers(n, s);
  }

  lemma Halves(wins: real, pairs: nat, count: nat)
    requires count > 0 && 2.0 * wins == pairs as real && pairs <= 2 * count
    ensures Ratio(wins, count as real) == Ratio(pairs as real, (2 * count) as real)
    ensures 0.0 <= Ratio(wins, count as real) <= 1.0
  {
    var c := count as real;
    assert (2 * count) as real == 2.0 * c;
    RatioOrdered(0.0, wins, c);
    RatioOrdered(wins, c, c);
    RatioOfItself(c);
    Doubled(wins, c);
  }

  lemma Doubled(a: real, d: real)
    requires d > 0.0
    ensures Ratio(2.0 * a, 2.0 * d) == Ratio(a, d)
  {
  }

  lemma {:induction false} AgainstBounded(normal: seq<Score>, s: Score)
    ensures Against(normal, s) <= 2 * |normal|
  {
    if normal != [] {
      AgainstBounded(normal[..|normal| - 1], s);
    }
  }

  lemma {:induction false} PairsBounded(normal: seq<Score>, synthetic: seq<Score>)
    ensures AllPairs(normal, synthetic) <= 2 * (|normal| * |synthetic|)
  {
    hide Against;
    if synthetic == [] {
      assert |normal| * |synthetic| == 0;
    } else {
      PairsBounded(normal, synthetic[..|synthetic| - 1]);
      AgainstBounded(normal, synthetic[|synthetic| - 1]);
      OneMoreColumn(2, |normal|, |synthetic| - 1);
    }
  }

  /** One pair of scores: a win counts two halves, a tie one, a loss none; infinities are the extremes. */
  lemma OnePair(x: real, y: real)
    ensures AllPairs([Real(x)], [Real(y)]) == if x < y then 2 else if x == y then 1 else 0
    ensures AllPairs([MinusInfinity], [Real(y)]) == AllPairs([Real(x)], [PlusInfinity]) == AllPairs([MinusInfinity], [PlusInfinity]) == 2
    ensures AllPairs([PlusInfinity], [Real(y)]) == AllPairs([Real(x)], [MinusInfinity]) == AllPairs([PlusInfinity], [MinusInfinity]) == 0
    ensures AllPairs([PlusInfinity], [PlusInfinity]) == AllPairs([MinusInfinity], [MinusInfinity]) == 1
  {
    forall n: Score, s: Score ensures AllPairs([n], [s]) == Credit(s, n) {
      assert [n][..0] == [] && [s][..0] == [];
      assert Against([n], s) == Credit(s, n);
    }
  }

  /** All pairs are the pairs of the parts. */
  lemma PairsOfParts(a: seq<Score>, b: seq<Score>, c: seq<Score>, d: seq<Score>)
    ensures AllPairs(a + b, c + d) == AllPairs(a, c) + AllPairs(a, d) + AllPairs(b, c) + AllPairs(b, d)
  {
    hide AllPairs;
    PairsConcatNormal(a, b, c + d);
    PairsConcat(a, c, d);
    PairsConcat(b, c, d);
  }
}
