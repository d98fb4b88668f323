/** Recomputing the derived tables of a model from its n-gram counts.

    The counts may be visited in any order.  The replacements are built completely
    before they are published, so a rebuild that fails changes nothing. */
module Rebuild {
  import opened Bytes
  import opened Netstring
  import opened NgramStore
  import opened ModelUpdate

  // The part of a table that has been visited.
  ghost function Restrict(m: Table, keys: set<Bytes>): Table
    requires keys <= m.Keys
  {
    map key | key in keys :: m[key]
  }

  function AddContext(c: ContextTable, prefix: Bytes, count: nat): ContextTable {
    var at := ContextAt(c, prefix);
    c[prefix := Context(at.total + count, at.continuations + 1)]
  }

  // ---- One more entry ----

  lemma InsertSum(m: Table, keys: set<Bytes>, key: Bytes, count: nat)
    requires keys <= m.Keys && key !in m
    ensures SumOver(keys, m[key := count]) == SumOver(keys, m)
    ensures SumOver(keys + {key}, m[key := count]) == SumOver(keys, m) + count
  {
    SumRemove(keys + {key}, m[key := count], key);
    assert keys + {key} - {key} == keys;
    SumSame(keys, m, m[key := count]);
  }

  lemma InsertGroup(m: Table, key: Bytes, count: nat, order: nat, q: Bytes)
    requires WellKeyed(m, order + 1) && KeyOf(key, order + 1) && key !in m && count >= 1
    ensures WellKeyed(m[key := count], order + 1) && key !in Group(m, order, q)
    ensures Group(m[key := count], order, q) ==
      if q == Prefix(key, order) then Group(m, order, q) + {key} else Group(m, order, q)
  {
    hide KeyOf;
    hide Prefix;
  }

  lemma InsertGroupContext(m: Table, key: Bytes, count: nat, order: nat, q: Bytes)
    requires WellKeyed(m, order + 1) && KeyOf(key, order + 1) && key !in m && count >= 1
    ensures WellKeyed(m[key := count], order + 1)
    ensures var before := GroupContext(m, order, q);
      GroupContext(m[key := count], order, q) ==
        if q == Prefix(key, order) then Context(before.total + count, before.continuations + 1) else before
  {
    hide KeyOf;
    hide Prefix;
    hide Group;
    InsertGroup(m, key, count, order, q);
    InsertSum(m, GroupIn(m, order, q), key, count);
  }

  lemma InsertPrefixes(m: Table, key: Bytes, count: nat, order: nat)
    requires WellKeyed(m, order + 1) && KeyOf(key, order + 1) && count >= 1
    ensures WellKeyed(m[key := count], order + 1)
    ensures Prefixes(m[key := count], order) == Prefixes(m, order) + {Prefix(key, order)}
  {
    hide KeyOf;
    hide Prefix;
    var more := m[key := count];
    assert key in more;
    assert forall k :: k in more ==> k in m || k == key;
    assert forall k :: k in m ==> k in more;
  }

  ghost function GroupIn(m: Table, order: nat, q: Bytes): (group: set<Bytes>)
    requires WellKeyed(m, order + 1)
    ensures group <= m.Keys && group == Group(m, order, q)
  {
    Group(m, order, q)
  }

  /** Adding the entry of one more n-gram to the contexts of the others. */
  lemma InsertDerived(m: Table, key: Bytes, count: nat, order: nat)
    requires WellKeyed(m, order + 1) && KeyOf(key, order + 1) && key !in m && count >= 1
    ensures WellKeyed(m[key := count], order + 1)
    ensures Derived(m[key := count], order) == AddContext(Derived(m, order), Prefix(key, order), count)
  {
    hide KeyOf;
    hide Prefix;
    hide GroupContext;
    hide Prefixes;
    InsertPrefixes(m, key, count, order);
    ContextOfPrefix(m, order, Prefix(key, order));
    forall q ensures GroupContext(m[key := count], order, q) ==
      if q == Prefix(key, order)
      then Context(GroupContext(m, order, q).total + count, GroupContext(m, order, q).continuations + 1)
      else GroupContext(m, order, q)
    {
      InsertGroupContext(m, key, count, order, q);
    }
  }

  // ---- Bounds of partial sums ----

  lemma {:induction false} SumGrows(some: set<Bytes>, all: set<Bytes>, m: Table)
    requires some <= all <= m.Keys
    ensures SumOver(some, m) <= SumOver(all, m)
    decreases |all|
  {
    if some != all {
      var x :| x in all && x !in some;
      SumRemove(all, m, x);
      SumGrows(some, all - {x}, m);
    }
  }

  lemma RestrictContext(m: Table, keys: set<Bytes>, order: nat, q: Bytes)
    requires WellKeyed(m, order + 1) && keys <= m.Keys
    ensures WellKeyed(Restrict(m, keys), order + 1)
    ensures GroupContext(Restrict(m, keys), order, q).total <= GroupContext(m, order, q).total
  {
    hide KeyOf;
    hide Prefix;
    var part := Restrict(m, keys);
    SumSame(Group(part, order, q), part, m);
    SumGrows(Group(part, order, q), Group(m, order, q), m);
  }

  lemma RestrictKeyed(m: Table, keys: set<Bytes>, n: nat)
    requires WellKeyed(m, n) && keys <= m.Keys
    ensures WellKeyed(Restrict(m, keys), n)
  {
    hide KeyOf;
  }

  // ---- One table ----

  /** The sums of the counts do not fit the counters. */
  ghost predicate TooBig(m: Table, order: nat)
    requires WellKeyed(m, order + 1)
  {
    || SumOver(m.Keys, m) > SIZE_MAX
    || (order > 0 && exists q :: GroupContext(m, order, q).total > INT64_MAX)
  }

  // What the visited part of a table of n-grams of `order + 1` components gives.
  ghost predicate Built(m: Table, order: nat, seen: set<Bytes>, total: nat, contexts: ContextTable)
    requires WellKeyed(m, order + 1)
  {
    && seen <= m.Keys && WellKeyed(Restrict(m, seen), order + 1)
    && total == SumOver(seen, m) <= SIZE_MAX
    && (order > 0 ==> contexts == Derived(Restrict(m, seen), order))
    && (order > 0 ==> forall q :: GroupContext(Restrict(m, seen), order, q).total <= INT64_MAX)
  }

  lemma NothingBuilt(m: Table, order: nat)
    requires WellKeyed(m, order + 1)
    ensures Built(m, order, {}, 0, map[])
  {
    var none := Restrict(m, {});
    assert none == map[];
    assert forall q :: Group(none, order, q) == {};
  }

  lemma AllBuilt(m: Table, order: nat, total: nat, contexts: ContextTable)
    requires WellKeyed(m, order + 1) && Built(m, order, m.Keys, total, contexts)
    ensures !TooBig(m, order) && total == SumOver(m.Keys, m)
    ensures order > 0 ==> contexts == Derived(m, order)
  {
    hide GroupContext;
    hide Derived;
    hide KeyOf;
    assert Restrict(m, m.Keys) == m;
  }

  /** Visiting one more entry; when it does not fit, the whole table does not. */
  lemma VisitOne(m: Table, order: nat, seen: set<Bytes>, total: nat, contexts: ContextTable, key: Bytes)
    requires WellKeyed(m, order + 1) && Built(m, order, seen, total, contexts) && key in m && key !in seen
    ensures KeyOf(key, order + 1)
    ensures total + m[key] > SIZE_MAX ==> TooBig(m, order)
    ensures order > 0 ==>
      var at := ContextAt(contexts, Prefix(key, order));
      at.total + m[key] > INT64_MAX ==> TooBig(m, order)
    ensures var at := if order > 0 then ContextAt(contexts, Prefix(key, order)) else Context(0, 0);
      total + m[key] <= SIZE_MAX && (order > 0 ==> at.total + m[key] <= INT64_MAX) ==>
        Built(m, order, seen + {key}, total + m[key],
              if order > 0 then AddContext(contexts, Prefix(key, order), m[key]) else contexts)
  {
    hide GroupContext;
    hide Derived;
    hide KeyOf;
    hide Prefix;
    var part := Restrict(m, seen);
    assert Restrict(m, seen + {key}) == part[key := m[key]];
    RestrictKeyed(m, seen + {key}, order + 1);
    SumRemove(seen + {key}, m, key);
    assert seen + {key} - {key} == seen;
    SumGrows(seen + {key}, m.Keys, m);
    if order > 0 {
      var prefix := Prefix(key, order);
      InsertDerived(part, key, m[key], order);
      ContextOfPrefix(part, order, prefix);
      InsertGroupContext(part, key, m[key], order, prefix);
      RestrictContext(m, seen + {key}, order, prefix);
      forall q | q != prefix ensures GroupContext(part[key := m[key]], order, q) == GroupContext(part, order, q) {
        InsertGroupContext(part, key, m[key], order, q);
      }
      if ContextAt(contexts, prefix).total + m[key] <= INT64_MAX {
        forall q ensures GroupContext(Restrict(m, seen + {key}), order, q).total <= INT64_MAX {
          assert GroupContext(part, order, q).total <= INT64_MAX;
        }
      }
    }
  }

  /** Sum one table, and collect its contexts unless it is the table of single stages. */
  method RebuildTable(m: Table, order: nat, fails: Bytes -> bool)
    returns (status: Status, total: nat, contexts: ContextTable)
    requires WellKeyed(m, order + 1)
    ensures status == Ok ==> !TooBig(m, order) && total == SumOver(m.Keys, m)
    ensures status == Ok && order > 0 ==> contexts == Derived(m, order)
    ensures status == Limit ==> TooBig(m, order)
    ensures status == OutOfMemory ==> exists key :: key in m && fails(key)
    ensures status != BadFormat && status != BadArgument
  {
    hide Built;
    hide TooBig;
    hide KeyOf;
    hide Prefix;
    var remaining := m.Keys;
    total, contexts := 0, map[];
    assert m.Keys - remaining == {};
    NothingBuilt(m, order);
    while remaining != {}
      invariant remaining <= m.Keys && Built(m, order, m.Keys - remaining, total, contexts)
      decreases |remaining|
    {
      var key :| key in remaining;
      VisitOne(m, order, m.Keys - remaining, total, contexts, key);
      if total > SIZE_MAX - m[key] {
        return Limit, total, contexts;
      }
      assert (m.Keys - remaining) + {key} == m.Keys - (remaining - {key});
      if order != 0 {
        var prefix := KeyPrefix(key, order);
        var at := ContextAt(contexts, prefix);
        if at.total > INT64_MAX - m[key] {
          return Limit, total, contexts;
        }
        if fails(key) {
          return OutOfMemory, total, contexts;
        }
        contexts := AddContext(contexts, prefix, m[key]);
      }
      total := total + m[key];
      remaining := remaining - {key};
    }
    assert m.Keys - {} == m.Keys;
    AllBuilt(m, order, total, contexts);
    status := Ok;
  }

  method KeyPrefix(key: Bytes, order: nat) returns (prefix: Bytes)
    requires KeyOf(key, order + 1)
    ensures prefix == Prefix(key, order)
  {
    var length := PrefixLength(key, order);
    assert Spells(Components(key, order + 1), key, order + 1);
    prefix := key[..length];
  }

  lemma NotTooBig(t: Tables, unkCount: nat, o: nat)
    requires Consistent(t) && Bounded(t, unkCount) && o < ORDERS
    ensures !TooBig(t.ngrams[o], o)
  {
    hide KeyOf;
    if o > 0 {
      var m := t.ngrams[o];
      assert t.contexts[o - 1] == Derived(m, o);
      forall q ensures GroupContext(m, o, q).total <= INT64_MAX {
        ContextOfPrefix(m, o, q);
      }
    }
  }

  /** Smaller counts of fewer n-grams fit if the others do. */
  lemma ShrunkFits(less: Table, m: Table, order: nat)
    requires WellKeyed(m, order + 1) && Shrunk(less, m) && !TooBig(m, order)
    requires forall k :: k in less ==> less[k] >= 1
    ensures WellKeyed(less, order + 1) && !TooBig(less, order)
  {
    hide KeyOf;
    hide Prefix;
    SumShrinks(less.Keys, less, m);
    SumGrows(less.Keys, m.Keys, m);
    if order > 0 {
      forall q ensures GroupContext(less, order, q).total <= INT64_MAX {
        SumShrinks(Group(less, order, q), less, m);
        SumGrows(Group(less, order, q), Group(m, order, q), m);
        assert GroupContext(m, order, q).total <= INT64_MAX;
      }
    }
  }

  ghost predicate Shrunk(less: Table, m: Table) {
    forall k :: k in less ==> k in m && less[k] <= m[k]
  }

  lemma {:induction false} SumShrinks(keys: set<Bytes>, less: Table, m: Table)
    requires keys <= less.Keys && Shrunk(less, m)
    ensures keys <= m.Keys && SumOver(keys, less) <= SumOver(keys, m)
    decreases |keys|
  {
    if keys != {} {
      var x :| x in keys;
      SumRemove(keys, less, x);
      SumRemove(keys, m, x);
      SumShrinks(keys - {x}, less, m);
    }
  }

  // ---- The whole model ----

  /** Rebuilt tables of counts that fit are within their machine types. */
  lemma RebuiltIsBounded(t: Tables, unkCount: nat)
    requires Consistent(t) && !AnyTooBig(t.ngrams) && unkCount <= SIZE_MAX
    requires forall o, key :: 0 <= o < ORDERS && key in t.ngrams[o] ==> t.ngrams[o][key] <= INT64_MAX
    ensures Bounded(t, unkCount)
  {
    hide KeyOf;
    hide GroupContext;
    hide Prefixes;
    forall o | 0 <= o < ORDERS ensures t.totals[o] <= SIZE_MAX {
      assert !TooBig(t.ngrams[o], o);
    }
    forall o, key | 0 <= o < ORDERS - 1 && key in t.contexts[o] ensures t.contexts[o][key].total <= INT64_MAX {
      var after := o + 1;
      assert !TooBig(t.ngrams[after], after);
      assert t.contexts[o] == Derived(t.ngrams[after], after);
    }
  }

  ghost predicate AnyTooBig(ngrams: seq<Table>)
    requires |ngrams| == ORDERS && forall o :: 0 <= o < ORDERS ==> WellKeyed(ngrams[o], o + 1)
  {
    exists o :: 0 <= o < ORDERS && TooBig(ngrams[o], o)
  }

  method Recompute(ngrams: seq<Table>, fails: (nat, Bytes) -> bool)
    returns (status: Status, contexts: seq<ContextTable>, totals: seq<nat>)
    requires |ngrams| == ORDERS && forall o :: 0 <= o < ORDERS ==> WellKeyed(ngrams[o], o + 1)
    ensures status == Ok ==> Consistent(Tables(ngrams, contexts, totals)) && !AnyTooBig(ngrams)
    ensures status == Limit ==> AnyTooBig(ngrams)
    ensures status == OutOfMemory ==> exists o: nat, key :: fails(o, key)
    ensures status != BadFormat && status != BadArgument
  {
    hide TooBig;
    hide KeyOf;
    hide Derived;
    contexts, totals := [], [];
    for order := 0 to ORDERS
      invariant |totals| == order && |contexts| == if order == 0 then 0 else order - 1
      invariant forall o :: 0 <= o < order ==> totals[o] == SumOver(ngrams[o].Keys, ngrams[o]) && !TooBig(ngrams[o], o)
      invariant forall o :: 1 <= o < order ==> contexts[o - 1] == Derived(ngrams[o], o)
    {
      var total, table;
      status, total, table := RebuildTable(ngrams[order], order, key => fails(order, key));
      if status != Ok {
        return;
      }
      totals := totals + [total];
      if order != 0 {
        contexts := contexts + [table];
      }
    }
    forall o | 0 <= o < ORDERS - 1 ensures contexts[o] == Derived(ngrams[o + 1], o + 1) {
      var after := o + 1;
      assert contexts[after - 1] == Derived(ngrams[after], after);
    }
    status := Ok;
  }

  /** Recompute contexts, totals and vocabulary size, or change nothing. */
  method RebuildDerived(model: Model, noMemory: bool, fails: (nat, Bytes) -> bool) returns (status: Status)
    requires |model.ngrams| == ORDERS && forall o :: 0 <= o < ORDERS ==> WellKeyed(model.ngrams[o], o + 1)
    modifies model`contexts, model`totals, model`vocabSize
    ensures status == Ok ==> model.Valid() && !AnyTooBig(model.ngrams)
    ensures status != Ok ==> model.View() == old(model.View()) && model.vocabSize == old(model.vocabSize)
    ensures status == Limit ==> AnyTooBig(model.ngrams)
    ensures status == OutOfMemory ==> noMemory || exists o: nat, key :: fails(o, key)
    ensures status != BadFormat && status != BadArgument
  {
    hide Consistent;
    hide AnyTooBig;
    hide KeyOf;
    if noMemory {
      return OutOfMemory;
    }
    var contexts, totals;
    status, contexts, totals := Recompute(model.ngrams, fails);
    if status != Ok {
      return;
    }
    model.contexts, model.totals, model.vocabSize := contexts, totals, |model.ngrams[0]|;
  }
}
