/** Decay and pruning of a model, on a copy that replaces it only when it is complete. */
module Maintenance {
  import opened Bytes
  import opened NgramStore
  import opened ModelUpdate
  import opened Rebuild
  import opened DecayCount
  import opened Arithmetic

  // ---- The decay factor ----

  /** A floating-point factor with its binary decomposition: value == significand / 2^shift. */
  datatype Scale = NotFinite | Finite(value: real, significand: nat, shift: nat) {
    predicate Decays() {
      Finite? && 0.0 < value < 1.0
    }

    // What frexp gives for a factor below one.
    predicate Decomposed() {
      Decays() ==> Pow2(52) <= significand < Pow2(53) && Times(value, Pow2(shift) as real) == significand as real
    }
  }

  function DecayOf(count: nat, s: Scale): nat
    requires s.Finite?
  {
    Decay(count, s.significand, s.shift)
  }

  lemma FactorBelowOne(s: Scale)
    requires s.Decays() && s.Decomposed()
    ensures s.significand < Pow2(s.shift) && s.shift >= 53
  {
    hide Pow2;
    hide Times;
    TimesShrinks(Pow2(s.shift) as real, s.value);
    TimesAssociates(s.value, Pow2(s.shift) as real, 1.0);
    assert s.significand < Pow2(s.shift);
    if s.shift <= 52 {
      PowMonotone(s.shift, 52);
    }
  }

  /** The decayed count is the floor of count times factor, for every 64-bit count. */
  lemma DecayIsFloor(count: nat, s: Scale)
    requires count < W64 && s.Decays() && s.Decomposed()
    ensures DecayOf(count, s) == Times(count as real, s.value).Floor
  {
    hide Times;
    hide Decay;
    hide Pow2;
    hide Div;
    hide Mod;
    FactorBelowOne(s);
    DecayExact(count, s.significand, s.shift);
    var d := Pow2(s.shift);
    Divides(count * s.significand, d);
    FloorOfProduct(count, s.value, s.significand, d, Div(count * s.significand, d));
  }

  lemma FloorOfProduct(count: nat, value: real, significand: nat, d: nat, q: nat)
    requires d > 0 && Times(value, d as real) == significand as real
    requires q * d <= count * significand < q * d + d
    ensures Times(count as real, value).Floor == q
  {
    hide Times;
    var c, e := count as real, d as real;
    TimesAssociates(c, value, e);
    TimesIntegers(q, d);
    TimesIntegers(count, significand);
    Cancel(q as real, Times(c, value), e);
  }

  lemma Cancel(q: real, x: real, e: real)
    requires e > 0.0 && Times(q, e) <= Times(x, e) < Times(q, e) + e
    ensures q <= x < q + 1.0
  {
    hide Times;
    if x < q {
      TimesOrdered(x, q, e);
    }
    if x >= q + 1.0 {
      TimesOrdered(q + 1.0, x, e);
      TimesDistributes(q, 1.0, e);
      TimesAssociates(1.0, e, 1.0);
      TimesDistributes(e, 0.0, 1.0);
    }
  }

  /** Every live count gets strictly smaller. */
  lemma DecayShrinks(count: nat, s: Scale)
    requires 1 <= count < W64 && s.Decays() && s.Decomposed()
    ensures DecayOf(count, s) < count
  {
    hide Decay;
    hide Pow2;
    hide Div;
    hide Mod;
    FactorBelowOne(s);
    DecayExact(count, s.significand, s.shift);
    var d := Pow2(s.shift);
    var q := Div(count * s.significand, d);
    Divides(count * s.significand, d);
    Apart(s.significand, d, count);
    Regroup(s.significand, count, 1);
    Regroup(d, count, 1);
    LessThan(q, d, count, count * s.significand);
  }

  // ---- One table ----

  function Decayed(m: Table, s: Scale): Table
    requires s.Finite?
  {
    map key | key in m && DecayOf(m[key], s) >= 1 :: DecayOf(m[key], s)
  }

  ghost function DecayedTimes(m: Table, s: Scale, rounds: nat): Table
    requires s.Finite?
  {
    if rounds == 0 then m else DecayedTimes(Decayed(m, s), s, rounds - 1)
  }

  /** Repeated decay empties a table in at most as many rounds as its largest count. */
  lemma {:induction false} EventuallyEmpty(m: Table, s: Scale, rounds: nat)
    requires s.Decays() && s.Decomposed() && rounds < W64
    requires forall key :: key in m ==> 1 <= m[key] <= rounds
    ensures DecayedTimes(m, s, rounds) == map[]
  {
    hide DecayOf;
    hide Scale.Decomposed;
    if rounds == 0 {
      assert forall key :: key !in m;
    } else {
      forall key | key in m ensures DecayOf(m[key], s) < m[key] {
        DecayShrinks(m[key], s);
      }
      EventuallyEmpty(Decayed(m, s), s, rounds - 1);
    }
  }

  datatype Change = Change(key: Bytes, count: nat)

  // The table after the changes to these keys.
  ghost function PartlyDecayed(m: Table, s: Scale, done: set<Bytes>): Table
    requires s.Finite?
  {
    map key | key in m && (key !in done || DecayOf(m[key], s) >= 1) :: if key in done then DecayOf(m[key], s) else m[key]
  }

  function Without(m: Table, key: Bytes): Table {
    map k | k in m && k != key :: m[k]
  }

  lemma ChangeOne(m: Table, s: Scale, done: set<Bytes>, key: Bytes)
    requires s.Finite? && key in m
    ensures var part, count := PartlyDecayed(m, s, done), DecayOf(m[key], s);
      PartlyDecayed(m, s, done + {key}) == if count < 1 then Without(part, key) else part[key := count]
  {
    hide DecayOf;
  }

  // The changes to make, in the order in which the table was visited.
  ghost predicate Collected(m: Table, s: Scale, changes: seq<Change>, keys: set<Bytes>)
    requires s.Finite?
  {
    && (forall i :: 0 <= i < |changes| ==>
         changes[i].key in keys && changes[i].key in m && changes[i].count == DecayOf(m[changes[i].key], s))
    && forall key :: key in keys ==> exists i :: 0 <= i < |changes| && changes[i].key == key
  }

  lemma CollectOne(m: Table, s: Scale, changes: seq<Change>, keys: set<Bytes>, key: Bytes)
    requires s.Finite? && Collected(m, s, changes, keys) && key in m
    ensures Collected(m, s, changes + [Change(key, DecayOf(m[key], s))], keys + {key})
  {
    hide DecayOf;
    var more := changes + [Change(key, DecayOf(m[key], s))];
    assert more[|changes|].key == key;
    forall k | k in keys ensures exists i :: 0 <= i < |more| && more[i].key == k {
      var i :| 0 <= i < |changes| && changes[i].key == k;
      assert more[i].key == k;
    }
  }

  ghost function ChangedKeys(changes: seq<Change>, n: nat): set<Bytes>
    requires n <= |changes|
  {
    set i | 0 <= i < n :: changes[i].key
  }

  lemma AllChanged(m: Table, s: Scale, changes: seq<Change>)
    requires s.Finite? && Collected(m, s, changes, m.Keys)
    ensures PartlyDecayed(m, s, ChangedKeys(changes, |changes|)) == Decayed(m, s)
  {
    hide DecayOf;
    assert ChangedKeys(changes, |changes|) == m.Keys;
  }

  lemma NothingChanged(m: Table, s: Scale, changes: seq<Change>)
    requires s.Finite?
    ensures PartlyDecayed(m, s, ChangedKeys(changes, 0)) == m
  {
    hide DecayOf;
  }

  lemma ChangedOneMore(changes: seq<Change>, n: nat)
    requires n < |changes|
    ensures ChangedKeys(changes, n + 1) == ChangedKeys(changes, n) + {changes[n].key}
  {
  }

  /** Collect the decayed counts first, then change the table; dead entries go. */
  method TableDecay(m: Table, s: Scale, noMemory: bool, fails: Bytes -> bool) returns (success: bool, r: Table)
    requires s.Finite?
    ensures success ==> r == Decayed(m, s)
    ensures !success ==> noMemory || exists key :: fails(key)
  {
    hide DecayOf;
    hide Decayed;
    hide PartlyDecayed;
    hide Collected;
    hide ChangedKeys;
    r := m;
    if |m| == 0 {
      NothingToDecay(m, s);
      return true, r;
    }
    if noMemory {
      return false, r;
    }
    var changes: seq<Change> := [];
    var remaining := m.Keys;
    NothingCollected(m, s);
    assert m.Keys - remaining == {};
    while remaining != {}
      invariant remaining <= m.Keys && Collected(m, s, changes, m.Keys - remaining)
      decreases |remaining|
    {
      var key :| key in remaining;
      CollectOne(m, s, changes, m.Keys - remaining, key);
      assert (m.Keys - remaining) + {key} == m.Keys - (remaining - {key});
      changes := changes + [Change(key, DecayOf(m[key], s))];
      remaining := remaining - {key};
    }
    assert m.Keys - remaining == m.Keys;
    r, success := ApplyChanges(m, s, changes, fails);
    AllChanged(m, s, changes);
  }

  method ApplyChanges(m: Table, s: Scale, changes: seq<Change>, fails: Bytes -> bool) returns (r: Table, success: bool)
    requires s.Finite? && Collected(m, s, changes, m.Keys)
    ensures success ==> r == PartlyDecayed(m, s, ChangedKeys(changes, |changes|))
    ensures !success ==> exists key :: fails(key)
  {
    hide DecayOf;
    hide PartlyDecayed;
    hide ChangedKeys;
    r, success := m, true;
    NothingChanged(m, s, changes);
    for i := 0 to |changes|
      invariant success ==> r == PartlyDecayed(m, s, ChangedKeys(changes, i))
      invariant !success ==> exists key :: fails(key)
    {
      var change := changes[i];
      ChangeOne(m, s, ChangedKeys(changes, i), change.key);
      ChangedOneMore(changes, i);
      if fails(change.key) {
        success := false;
      } else if change.count < 1 {
        r := Without(r, change.key);
      } else {
        r := r[change.key := change.count];
      }
    }
  }

  lemma NothingToDecay(m: Table, s: Scale)
    requires s.Finite? && |m| == 0
    ensures m == Decayed(m, s)
  {
    assert |m.Keys| == 0;
    assert m.Keys == {};
  }

  lemma NothingCollected(m: Table, s: Scale)
    requires s.Finite?
    ensures Collected(m, s, [], {})
  {
  }

  // ---- Pruning one table ----

  function Pruned(m: Table, minCount: nat): Table {
    map key | key in m && m[key] >= minCount :: m[key]
  }

  // The keys to remove among those visited.
  ghost predicate Doomed(m: Table, minCount: nat, list: seq<Bytes>, visited: set<Bytes>) {
    && (forall i, j :: 0 <= i < j < |list| ==> list[i] != list[j])
    && forall key :: key in list <==> key in visited && key in m && m[key] < minCount
  }

  lemma DoomOne(m: Table, minCount: nat, list: seq<Bytes>, visited: set<Bytes>, key: Bytes)
    requires Doomed(m, minCount, list, visited) && key in m && key !in visited
    ensures Doomed(m, minCount, if m[key] < minCount then list + [key] else list, visited + {key})
  {
  }

  ghost function Removed(m: Table, list: seq<Bytes>, n: nat): Table
    requires n <= |list|
  {
    map key | key in m && key !in list[..n] :: m[key]
  }

  lemma RemoveOne(m: Table, list: seq<Bytes>, n: nat)
    requires n < |list|
    ensures Removed(m, list, n + 1) == Without(Removed(m, list, n), list[n])
  {
    assert list[..n + 1] == list[..n] + [list[n]];
  }

  lemma AllRemoved(m: Table, minCount: nat, list: seq<Bytes>)
    requires Doomed(m, minCount, list, m.Keys)
    ensures Removed(m, list, |list|) == Pruned(m, minCount) && |list| == |m| - |Pruned(m, minCount)|
  {
    assert list[..|list|] == list;
    DistinctCount(list);
    var dead, kept := Listed(list), Pruned(m, minCount).Keys;
    ListedAre(list);
    assert dead == m.Keys - kept;
    CountsAdd(dead, kept, m.Keys);
    assert |m.Keys| == |m| && |kept| == |Pruned(m, minCount)|;
  }

  ghost function Listed(list: seq<Bytes>): set<Bytes> {
    set key | key in list
  }

  lemma ListedAre(list: seq<Bytes>)
    ensures forall key :: key in Listed(list) <==> key in list
  {
  }

  lemma CountsAdd(a: set<Bytes>, b: set<Bytes>, all: set<Bytes>)
    requires b <= all && a == all - b
    ensures |a| + |b| == |all|
  {
    assert a + b == all && a !! b;
  }

  lemma {:induction false} DistinctCount(list: seq<Bytes>)
    requires forall i, j :: 0 <= i < j < |list| ==> list[i] != list[j]
    ensures |Listed(list)| == |list|
  {
    if list != [] {
      var front, last := list[..|list| - 1], list[|list| - 1];
      DistinctCount(front);
      assert list == front + [last];
      assert Listed(list) == Listed(front) + {last};
    }
  }

  /** Collect the keys below the threshold, then remove them, counting them. */
  method TablePrune(m: Table, minCount: nat, noMemory: bool, fails: Bytes -> bool)
    returns (success: bool, r: Table, removed: nat)
    requires minCount > 0
    ensures success ==> r == Pruned(m, minCount) && removed == |m| - |r|
    ensures !success ==> removed == 0 && (noMemory || exists key :: fails(key))
  {
    hide Pruned;
    hide Doomed;
    hide Removed;
    r := m;
    var list: seq<Bytes> := [];
    AllKept(m, minCount);
    if |m| == 0 {
      return true, r, 0;
    }
    if noMemory {
      return false, r, 0;
    }
    var remaining := m.Keys;
    assert m.Keys - remaining == {};
    while remaining != {}
      invariant remaining <= m.Keys && Doomed(m, minCount, list, m.Keys - remaining)
      decreases |remaining|
    {
      var key :| key in remaining;
      DoomOne(m, minCount, list, m.Keys - remaining, key);
      assert (m.Keys - remaining) + {key} == m.Keys - (remaining - {key});
      if m[key] < minCount {
        list := list + [key];
      }
      remaining := remaining - {key};
    }
    assert m.Keys - remaining == m.Keys;
    NoneRemoved(m, list);
    for i := 0 to |list|
      invariant r == Removed(m, list, i)
    {
      if fails(list[i]) {
        return false, r, 0;
      }
      RemoveOne(m, list, i);
      r := Without(r, list[i]);
    }
    AllRemoved(m, minCount, list);
    return true, r, |list|;
  }

  lemma NoneRemoved(m: Table, list: seq<Bytes>)
    ensures Removed(m, list, 0) == m
  {
  }

  lemma AllKept(m: Table, minCount: nat)
    ensures |m| == 0 ==> m == Pruned(m, minCount)
    ensures Doomed(m, minCount, [], {})
  {
    assert |m| == |m.Keys|;
    if |m| == 0 {
      assert m.Keys == {};
    }
  }

  // ---- Whole models ----

  /** A complete copy; the caller owns it until it replaces the model. */
  method Stage(model: Model) returns (staged: Model)
    ensures fresh(staged) && staged.View() == model.View() && staged.vocabSize == model.vocabSize
    ensures staged.unkCount == model.unkCount && staged.oom == model.oom
    ensures staged.alpha == model.alpha && staged.discount == model.discount
  {
    staged := new Model(model.alpha);
    staged.ngrams, staged.contexts, staged.totals := model.ngrams, model.contexts, model.totals;
    staged.vocabSize, staged.unkCount, staged.oom := model.vocabSize, model.unkCount, model.oom;
    staged.discount := model.discount;
  }

  method Replace(model: Model, staged: Model)
    requires model != staged
    modifies model
    ensures model.View() == staged.View() && model.vocabSize == staged.vocabSize
    ensures model.unkCount == staged.unkCount && model.oom == staged.oom
    ensures model.alpha == staged.alpha && model.discount == staged.discount
  {
    model.ngrams, model.contexts, model.totals := staged.ngrams, staged.contexts, staged.totals;
    model.vocabSize, model.unkCount, model.oom := staged.vocabSize, staged.unkCount, staged.oom;
    model.alpha, model.discount := staged.alpha, staged.discount;
  }

  // What a maintenance operation that did not succeed leaves of a model.
  twostate predicate Kept(model: Model)
    reads model
  {
    && model.View() == old(model.View()) && model.vocabSize == old(model.vocabSize)
    && model.unkCount == old(model.unkCount) && model.alpha == old(model.alpha) && model.discount == old(model.discount)
  }

  /** Rebuild the copy, and let it replace the model if that succeeds. */
  method Finish(model: Model, staged: Model, failsRebuild: (nat, Bytes) -> bool) returns (status: Status)
    requires model != staged && |staged.ngrams| == ORDERS && staged.unkCount <= SIZE_MAX
    requires forall o :: 0 <= o < ORDERS ==> WellKeyed(staged.ngrams[o], o + 1)
    requires !AnyTooBig(staged.ngrams)
    requires forall o, key :: 0 <= o < ORDERS && key in staged.ngrams[o] ==> staged.ngrams[o][key] <= INT64_MAX
    modifies model, staged
    ensures status == Ok ==> model.Valid() && Bounded(model.View(), model.unkCount)
    ensures status == Ok ==> model.ngrams == old(staged.ngrams) && model.unkCount == old(staged.unkCount)
    ensures status == Ok ==> model.alpha == old(staged.alpha) && model.discount == old(staged.discount)
    ensures status == Ok ==> model.oom == old(staged.oom)
    ensures status != Ok ==> status == OutOfMemory && Kept(model) && model.oom
    ensures status == OutOfMemory ==> exists o: nat, key :: failsRebuild(o, key)
  {
    hide KeyOf;
    hide Consistent;
    hide AnyTooBig;
    hide Bounded;
    status := RebuildDerived(staged, false, failsRebuild);
    if status != Ok {
      model.oom := true;
      return;
    }
    RebuiltIsBounded(staged.View(), staged.unkCount);
    Replace(model, staged);
  }

  // The tables hold fewer and smaller live counts than consistent, bounded ones.
  lemma StillFits(t: Tables, unkCount: nat, less: seq<Table>)
    requires Consistent(t) && |less| == ORDERS
    requires forall o :: 0 <= o < ORDERS ==> Shrunk(less[o], t.ngrams[o])
    requires forall o, key :: 0 <= o < ORDERS && key in less[o] ==> less[o][key] >= 1
    ensures forall o :: 0 <= o < ORDERS ==> WellKeyed(less[o], o + 1)
    ensures Bounded(t, unkCount) ==> !AnyTooBig(less)
    ensures Bounded(t, unkCount) ==> forall o, key :: 0 <= o < ORDERS && key in less[o] ==> less[o][key] <= INT64_MAX
  {
    hide KeyOf;
    hide TooBig;
    if Bounded(t, unkCount) {
      forall o | 0 <= o < ORDERS ensures WellKeyed(less[o], o + 1) && !TooBig(less[o], o) {
        NotTooBig(t, unkCount, o);
        ShrunkFits(less[o], t.ngrams[o], o);
      }
    }
  }

  lemma DecayedFits(t: Tables, unkCount: nat, s: Scale, o: nat)
    requires Consistent(t) && Bounded(t, unkCount) && s.Decays() && s.Decomposed() && o < ORDERS
    ensures Shrunk(Decayed(t.ngrams[o], s), t.ngrams[o])
  {
    hide DecayOf;
    hide KeyOf;
    hide Scale.Decomposed;
    var m := t.ngrams[o];
    forall key | key in Decayed(m, s) ensures DecayOf(m[key], s) <= m[key] {
      DecayShrinks(m[key], s);
    }
  }

  ghost predicate EachDecayed(less: seq<Table>, ngrams: seq<Table>, s: Scale)
    requires s.Finite?
  {
    |less| == ORDERS && |ngrams| == ORDERS && forall o :: 0 <= o < ORDERS ==> less[o] == Decayed(ngrams[o], s)
  }

  method DecayTables(ngrams: seq<Table>, s: Scale, noMemory: bool, fails: Bytes -> bool)
    returns (success: bool, less: seq<Table>)
    requires s.Finite? && |ngrams| == ORDERS
    ensures success ==> EachDecayed(less, ngrams, s)
    ensures !success ==> noMemory || exists key :: fails(key)
  {
    hide Decayed;
    less := [];
    for i := 0 to ORDERS
      invariant |less| == i && forall o :: 0 <= o < i ==> less[o] == Decayed(ngrams[o], s)
    {
      var table;
      success, table := TableDecay(ngrams[i], s, noMemory, fails);
      if !success {
        return;
      }
      less := less + [table];
    }
    success := true;
  }

  lemma DecayedTablesFit(t: Tables, unkCount: nat, s: Scale, less: seq<Table>)
    requires Consistent(t) && Bounded(t, unkCount) && s.Decays() && s.Decomposed() && EachDecayed(less, t.ngrams, s)
    ensures forall o :: 0 <= o < ORDERS ==> WellKeyed(less[o], o + 1)
    ensures !AnyTooBig(less)
    ensures forall o, key :: 0 <= o < ORDERS && key in less[o] ==> less[o][key] <= INT64_MAX
  {
    hide DecayOf;
    hide KeyOf;
    hide Consistent;
    hide Bounded;
    hide AnyTooBig;
    forall o | 0 <= o < ORDERS ensures Shrunk(less[o], t.ngrams[o]) {
      DecayedFits(t, unkCount, s, o);
    }
    StillFits(t, unkCount, less);
  }

  /** Multiply every count by a factor and rebuild, or change nothing but the failure mark. */
  method DecayModel(model: Model, s: Scale, noMemory: bool, fails: Bytes -> bool, failsRebuild: (nat, Bytes) -> bool)
    returns (status: Status)
    requires model.Valid() && Bounded(model.View(), model.unkCount) && s.Decomposed()
    modifies model
    ensures model.Valid() && Bounded(model.View(), model.unkCount)
    ensures status == BadArgument <==> !(s.Finite? && 0.0 < s.value <= 1.0)
    ensures status == Ok && s.Decays() ==>
      EachDecayed(model.ngrams, old(model.ngrams), s) && model.unkCount == DecayOf(old(model.unkCount), s)
    ensures !(status == Ok && s.Decays()) ==> Kept(model)
    ensures model.alpha == old(model.alpha) && model.discount == old(model.discount)
    ensures model.oom == (old(model.oom) || status == OutOfMemory)
    ensures status == OutOfMemory ==> noMemory || (exists key :: fails(key)) || exists o: nat, key :: failsRebuild(o, key)
    ensures status != Limit && status != BadFormat
  {
    hide DecayOf;
    hide Consistent;
    hide Bounded;
    hide AnyTooBig;
    hide EachDecayed;
    hide Scale.Decomposed;
    if s.NotFinite? || s.value <= 0.0 || s.value > 1.0 {
      return BadArgument;
    }
    if s.value == 1.0 {
      return Ok;
    }
    if noMemory {
      model.oom := true;
      return OutOfMemory;
    }
    ConsistentTables(model.View());
    var staged := Stage(model);
    var success, less := DecayTables(staged.ngrams, s, noMemory, fails);
    if !success {
      model.oom := true;
      return OutOfMemory;
    }
    DecayedTablesFit(model.View(), model.unkCount, s, less);
    var unknown := DecayOf(staged.unkCount, s);
    UnknownFits(model.View(), model.unkCount, s);
    EachHasShape(less, model.ngrams, s);
    staged.ngrams, staged.unkCount := less, unknown;
    status := Finish(model, staged, failsRebuild);
  }

  lemma ConsistentTables(t: Tables)
    requires Consistent(t)
    ensures t.Shape()
  {
  }

  lemma EachHasShape(less: seq<Table>, ngrams: seq<Table>, s: Scale)
    requires s.Finite? && EachDecayed(less, ngrams, s)
    ensures |less| == ORDERS
  {
  }

  lemma UnknownFits(t: Tables, unkCount: nat, s: Scale)
    requires Bounded(t, unkCount) && s.Decays() && s.Decomposed()
    ensures DecayOf(unkCount, s) <= SIZE_MAX
  {
    hide DecayOf;
    hide Scale.Decomposed;
    if unkCount == 0 {
      DecayOfZero(s);
    } else {
      DecayShrinks(unkCount, s);
    }
  }

  lemma DecayOfZero(s: Scale)
    requires s.Decays() && s.Decomposed()
    ensures DecayOf(0, s) == 0
  {
    hide Times;
    hide DecayOf;
    hide Scale.Decomposed;
    DecayIsFloor(0, s);
    TimesDistributes(s.value, 0.0, 0.0);
  }

  ghost predicate EachPruned(less: seq<Table>, ngrams: seq<Table>, minCount: nat) {
    |less| == ORDERS && |ngrams| == ORDERS && forall o :: 0 <= o < ORDERS ==> less[o] == Pruned(ngrams[o], minCount)
  }

  function Sizes(ngrams: seq<Table>): nat
    requires |ngrams| == ORDERS
  {
    |ngrams[0]| + |ngrams[1]| + |ngrams[2]| + |ngrams[3]|
  }

  method PruneTables(ngrams: seq<Table>, minCount: nat, noMemory: bool, fails: Bytes -> bool)
    returns (success: bool, less: seq<Table>, removed: nat)
    requires |ngrams| == ORDERS && minCount > 0
    ensures success ==> EachPruned(less, ngrams, minCount) && removed == Sizes(ngrams) - Sizes(less)
    ensures !success ==> noMemory || exists key :: fails(key)
  {
    hide Pruned;
    var s1, t1, n1 := TablePrune(ngrams[0], minCount, noMemory, fails);
    var s2, t2, n2 := TablePrune(ngrams[1], minCount, noMemory, fails);
    var s3, t3, n3 := TablePrune(ngrams[2], minCount, noMemory, fails);
    var s4, t4, n4 := TablePrune(ngrams[3], minCount, noMemory, fails);
    success, less, removed := s1 && s2 && s3 && s4, [t1, t2, t3, t4], n1 + n2 + n3 + n4;
  }

  lemma PrunedTablesFit(t: Tables, unkCount: nat, minCount: nat, less: seq<Table>)
    requires Consistent(t) && Bounded(t, unkCount) && EachPruned(less, t.ngrams, minCount)
    ensures |less| == ORDERS && forall o :: 0 <= o < ORDERS ==> WellKeyed(less[o], o + 1)
    ensures !AnyTooBig(less) && unkCount <= SIZE_MAX
    ensures forall o, key :: 0 <= o < ORDERS && key in less[o] ==> less[o][key] <= INT64_MAX
  {
    hide KeyOf;
    hide AnyTooBig;
    assert forall o :: 0 <= o < ORDERS ==> WellKeyed(t.ngrams[o], o + 1);
    StillFits(t, unkCount, less);
  }

  /** Remove every n-gram seen less often than the threshold and rebuild, or change nothing but the failure mark. */
  method PruneModel(model: Model, minCount: nat, noMemory: bool, fails: Bytes -> bool, failsRebuild: (nat, Bytes) -> bool)
    returns (status: Status, removed: nat)
    requires model.Valid() && Bounded(model.View(), model.unkCount)
    modifies model
    ensures model.Valid() && Bounded(model.View(), model.unkCount)
    ensures status == Ok ==> EachPruned(model.ngrams, old(model.ngrams), minCount)
    ensures status == Ok ==> removed == Sizes(old(model.ngrams)) - Sizes(model.ngrams) && model.unkCount == old(model.unkCount)
    ensures status != Ok ==> Kept(model)
    ensures model.alpha == old(model.alpha) && model.discount == old(model.discount)
    ensures model.oom == (old(model.oom) || status == OutOfMemory)
    ensures status == OutOfMemory ==> noMemory || (exists key :: fails(key)) || exists o: nat, key :: failsRebuild(o, key)
    ensures status == Ok || status == OutOfMemory
  {
    hide Consistent;
    hide Bounded;
    hide AnyTooBig;
    hide EachPruned;
    hide Sizes;
    hide TooBig;
    hide KeyOf;
    ConsistentTables(model.View());
    removed := 0;
    if minCount == 0 {
      NothingPruned(model.ngrams);
      return Ok, 0;
    }
    if noMemory {
      model.oom := true;
      return OutOfMemory, 0;
    }
    var staged := Stage(model);
    var success, less, count := PruneTables(staged.ngrams, minCount, noMemory, fails);
    if !success {
      model.oom := true;
      return OutOfMemory, 0;
    }
    PrunedTablesFit(model.View(), model.unkCount, minCount, less);
    staged.ngrams := less;
    status := Finish(model, staged, failsRebuild);
    removed := if status == Ok then count else 0;
  }

  lemma NothingPruned(ngrams: seq<Table>)
    requires |ngrams| == ORDERS
    ensures EachPruned(ngrams, ngrams, 0)
  {
  }

  // ---- Written out ----

  /** What decay leaves of a count, in every table: the floor of count times factor, if that is at least one. */
  lemma DecayMeans(less: seq<Table>, ngrams: seq<Table>, s: Scale, o: nat, key: Bytes)
    requires s.Decays() && s.Decomposed() && EachDecayed(less, ngrams, s) && o < 4
    requires key in ngrams[o] ==> ngrams[o][key] < 0x1_0000_0000_0000_0000
    ensures |less| == |ngrams| == 4
    ensures key in less[o] <==> key in ngrams[o] && (ngrams[o][key] as real * s.value).Floor >= 1
    ensures key in less[o] ==> less[o][key] == (ngrams[o][key] as real * s.value).Floor
  {
    hide DecayOf;
    hide Scale.Decomposed;
    if key in ngrams[o] {
      DecayIsFloor(ngrams[o][key], s);
    }
  }

  /** What pruning leaves: exactly the counts that reach the threshold, unchanged. */
  lemma PruneMeans(less: seq<Table>, ngrams: seq<Table>, minCount: nat, o: nat, key: Bytes)
    requires EachPruned(less, ngrams, minCount) && o < 4
    ensures |less| == |ngrams| == 4
    ensures Sizes(ngrams) - Sizes(less) == |ngrams[0]| - |less[0]| + |ngrams[1]| - |less[1]| + |ngrams[2]| - |less[2]| + |ngrams[3]| - |less[3]|
    ensures key in less[o] <==> key in ngrams[o] && ngrams[o][key] >= minCount
    ensures key in less[o] ==> less[o][key] == ngrams[o][key]
  {
  }
}
