/** The n-gram tables of a model, as values, and the invariant that ties the
    derived context tables and totals to the counts. */
module NgramStore {
  import opened Bytes
  import opened Netstring

  const INT64_MAX: nat := 0x7FFF_FFFF_FFFF_FFFF
  const SIZE_MAX: nat := 0xFFFF_FFFF_FFFF_FFFF
  const ORDERS := 4

  type Table = map<Bytes, nat>

  datatype Context = Context(total: nat, continuations: nat)

  type ContextTable = map<Bytes, Context>

  /** Counts of n-grams of order 1 to 4; for order 2 to 4 the statistics of the
      contexts; the sum of the counts of every order. */
  datatype Tables = Tables(ngrams: seq<Table>, contexts: seq<ContextTable>, totals: seq<nat>) {
    predicate Shape() {
      |ngrams| == ORDERS && |contexts| == ORDERS - 1 && |totals| == ORDERS
    }
  }

  function Count(m: Table, key: Bytes): nat {
    if key in m then m[key] else 0
  }

  function ContextAt(c: ContextTable, key: Bytes): Context {
    if key in c then c[key] else Context(0, 0)
  }

  // ---- Sums ----

  ghost function SumOver(keys: set<Bytes>, m: Table): nat
    requires keys <= m.Keys
  {
    if keys == {} then 0
    else
      var k :| k in keys;
      m[k] + SumOver(keys - {k}, m)
  }

  lemma {:induction false} SumRemove(keys: set<Bytes>, m: Table, x: Bytes)
    requires keys <= m.Keys && x in keys
    ensures SumOver(keys, m) == m[x] + SumOver(keys - {x}, m)
    decreases |keys|
  {
    var k :| k in keys && SumOver(keys, m) == m[k] + SumOver(keys - {k}, m);
    if k != x {
      SumRemove(keys - {k}, m, x);
      SumRemove(keys - {x}, m, k);
      assert keys - {k} - {x} == keys - {x} - {k};
    }
  }

  lemma {:induction false} SumSame(keys: set<Bytes>, a: Table, b: Table)
    requires keys <= a.Keys && keys <= b.Keys && forall k :: k in keys ==> a[k] == b[k]
    ensures SumOver(keys, a) == SumOver(keys, b)
    decreases |keys|
  {
    if keys != {} {
      var x :| x in keys;
      SumRemove(keys, a, x);
      SumRemove(keys, b, x);
      SumSame(keys - {x}, a, b);
    }
  }

  lemma {:induction false} SumBounds(keys: set<Bytes>, m: Table)
    requires keys <= m.Keys && forall k :: k in keys ==> m[k] >= 1
    ensures |keys| <= SumOver(keys, m)
    decreases |keys|
  {
    if keys != {} {
      var x :| x in keys;
      SumRemove(keys, m, x);
      SumBounds(keys - {x}, m);
    }
  }

  // ---- Contexts ----

  // The key is made of n learnable components.
  ghost predicate KeyOf(key: Bytes, n: nat) {
    exists items: seq<Bytes> :: Spells(items, key, n)
  }

  ghost predicate Spells(items: seq<Bytes>, key: Bytes, n: nat) {
    |items| == n && Learnable(items) && key == EncodeAll(items)
  }

  ghost function Components(key: Bytes, n: nat): (items: seq<Bytes>)
    requires KeyOf(key, n)
    ensures Spells(items, key, n)
  {
    var items: seq<Bytes> :| Spells(items, key, n);
    items
  }

  // The key of all components but the last.
  ghost function Prefix(key: Bytes, order: nat): Bytes
    requires KeyOf(key, order + 1)
  {
    EncodeAll(Components(key, order + 1)[..order])
  }

  lemma PrefixOf(items: seq<Bytes>, order: nat)
    requires |items| == order + 1 && Learnable(items)
    ensures KeyOf(EncodeAll(items), order + 1)
    ensures Prefix(EncodeAll(items), order) == EncodeAll(items[..order])
  {
    assert Spells(items, EncodeAll(items), order + 1);
    EncodeAllInjective(items, Components(EncodeAll(items), order + 1));
  }

  // Every key is an n-gram key and is live.
  ghost predicate WellKeyed(m: Table, n: nat) {
    forall key :: key in m ==> KeyOf(key, n) && m[key] >= 1
  }

  ghost function Group(m: Table, order: nat, prefix: Bytes): set<Bytes>
    requires WellKeyed(m, order + 1)
  {
    set key | key in m && Prefix(key, order) == prefix
  }

  ghost function GroupContext(m: Table, order: nat, prefix: Bytes): Context
    requires WellKeyed(m, order + 1)
  {
    Context(SumOver(Group(m, order, prefix), m), |Group(m, order, prefix)|)
  }

  ghost function Prefixes(m: Table, order: nat): set<Bytes>
    requires WellKeyed(m, order + 1)
  {
    set key | key in m :: Prefix(key, order)
  }

  /** The context table that the counts imply: per prefix, the sum of the counts
      and the number of the n-grams that start with it. */
  ghost function Derived(m: Table, order: nat): ContextTable
    requires WellKeyed(m, order + 1)
  {
    map prefix | prefix in Prefixes(m, order) :: GroupContext(m, order, prefix)
  }

  ghost predicate Consistent(t: Tables) {
    && t.Shape()
    && (forall o :: 0 <= o < ORDERS ==> WellKeyed(t.ngrams[o], o + 1))
    && (forall o :: 0 <= o < ORDERS ==> t.totals[o] == SumOver(t.ngrams[o].Keys, t.ngrams[o]))
    && (forall o :: 0 <= o < ORDERS - 1 ==> t.contexts[o] == Derived(t.ngrams[o + 1], o + 1))
  }

  /** Every counter holds a value of its machine type. */
  ghost predicate Bounded(t: Tables, unkCount: nat) {
    && t.Shape() && unkCount <= SIZE_MAX
    && (forall o, key :: 0 <= o < ORDERS && key in t.ngrams[o] ==> t.ngrams[o][key] <= INT64_MAX)
    && (forall o :: 0 <= o < ORDERS ==> t.totals[o] <= SIZE_MAX)
    && (forall o, key :: 0 <= o < ORDERS - 1 && key in t.contexts[o] ==> t.contexts[o][key].total <= INT64_MAX)
  }

  // ---- One more occurrence ----

  function Bump(m: Table, key: Bytes): Table {
    m[key := Count(m, key) + 1]
  }

  function BumpContext(c: ContextTable, prefix: Bytes, newContinuation: bool): ContextTable {
    var old_ := ContextAt(c, prefix);
    c[prefix := Context(old_.total + 1, old_.continuations + if newContinuation then 1 else 0)]
  }

  lemma BumpSum(m: Table, keys: set<Bytes>, key: Bytes)
    requires keys <= m.Keys
    ensures SumOver(if key in m then keys else keys + {key}, Bump(m, key))
      == SumOver(keys, m) + if key in keys || key !in m then 1 else 0
  {
    var more := Bump(m, key);
    if key in keys {
      SumRemove(keys, m, key);
      SumRemove(keys, more, key);
      SumSame(keys - {key}, m, more);
    } else if key !in m {
      SumRemove(keys + {key}, more, key);
      assert keys + {key} - {key} == keys;
      SumSame(keys, m, more);
    } else {
      SumSame(keys, m, more);
    }
  }

  lemma BumpKeyed(m: Table, key: Bytes, n: nat)
    requires WellKeyed(m, n) && KeyOf(key, n)
    ensures WellKeyed(Bump(m, key), n)
  {
  }

  lemma BumpTotal(m: Table, key: Bytes)
    ensures SumOver(Bump(m, key).Keys, Bump(m, key)) == SumOver(m.Keys, m) + 1
  {
    BumpSum(m, m.Keys, key);
    assert Bump(m, key).Keys == if key in m then m.Keys else m.Keys + {key};
  }

  // A prefix without n-grams has the empty context.
  lemma ContextOfPrefix(m: Table, order: nat, q: Bytes)
    requires WellKeyed(m, order + 1)
    ensures ContextAt(Derived(m, order), q) == GroupContext(m, order, q)
  {
    hide KeyOf;
    hide Prefix;
    if q !in Prefixes(m, order) {
      assert Group(m, order, q) == {};
    }
  }

  lemma BumpGroupContext(m: Table, key: Bytes, order: nat, q: Bytes)
    requires WellKeyed(m, order + 1) && KeyOf(key, order + 1)
    ensures WellKeyed(Bump(m, key), order + 1)
    ensures var before := GroupContext(m, order, q);
      GroupContext(Bump(m, key), order, q) ==
        if q == Prefix(key, order) then Context(before.total + 1, before.continuations + if key !in m then 1 else 0)
        else before
  {
    hide KeyOf;
    hide Prefix;
    hide Bump;
    BumpGroup(m, key, order, q);
    BumpKeyed(m, key, order + 1);
    var group := Group(m, order, q);
    if q == Prefix(key, order) {
      BumpSum(m, group, key);
      if key in m {
        assert group + {key} == group;
      }
    } else {
      BumpOthers(m, group, key);
    }
  }

  lemma BumpOthers(m: Table, keys: set<Bytes>, key: Bytes)
    requires keys <= m.Keys && key !in keys
    ensures keys <= Bump(m, key).Keys && SumOver(keys, Bump(m, key)) == SumOver(keys, m)
  {
    SumSame(keys, m, Bump(m, key));
  }

  lemma BumpPrefixes(m: Table, key: Bytes, order: nat)
    requires WellKeyed(m, order + 1) && KeyOf(key, order + 1)
    ensures WellKeyed(Bump(m, key), order + 1)
    ensures Prefixes(Bump(m, key), order) == Prefixes(m, order) + {Prefix(key, order)}
  {
    hide KeyOf;
    hide Prefix;
    BumpKeyed(m, key, order + 1);
  }

  /** The incremental context step computes what a rebuild would. */
  lemma BumpDerived(m: Table, key: Bytes, order: nat)
    requires WellKeyed(m, order + 1) && KeyOf(key, order + 1)
    ensures WellKeyed(Bump(m, key), order + 1)
    ensures Derived(Bump(m, key), order) == BumpContext(Derived(m, order), Prefix(key, order), key !in m)
  {
    hide KeyOf;
    hide Prefix;
    hide GroupContext;
    hide Prefixes;
    hide Bump;
    BumpPrefixes(m, key, order);
    ContextOfPrefix(m, order, Prefix(key, order));
    forall q ensures GroupContext(Bump(m, key), order, q) ==
      if q == Prefix(key, order)
      then Context(GroupContext(m, order, q).total + 1, GroupContext(m, order, q).continuations + if key !in m then 1 else 0)
      else GroupContext(m, order, q)
    {
      BumpGroupContext(m, key, order, q);
    }
  }

  lemma BumpGroup(m: Table, key: Bytes, order: nat, q: Bytes)
    requires WellKeyed(m, order + 1) && KeyOf(key, order + 1)
    ensures WellKeyed(Bump(m, key), order + 1)
    ensures Group(Bump(m, key), order, q) ==
      if q == Prefix(key, order) then Group(m, order, q) + {key} else Group(m, order, q)
    ensures key in Group(m, order, q) <==> key in m && q == Prefix(key, order)
  {
    hide KeyOf;
    hide Prefix;
    BumpKeyed(m, key, order + 1);
  }

  // ---- Contexts, written out ----

  // The key has one more component than `front`, and starts with those.
  ghost predicate Continues(key: Bytes, front: seq<Bytes>) {
    exists last: Bytes :: key == EncodeAll(front + [last])
  }

  ghost function Continuations(m: Table, front: seq<Bytes>): set<Bytes> {
    set key | key in m && Continues(key, front)
  }

  /** The context of some components holds the number of the n-grams that continue them by one more
      component, and the sum of their counts. */
  lemma ContextMeans(t: Tables, front: seq<Bytes>)
    requires Consistent(t) && 1 <= |front| <= 3
    ensures var m := t.ngrams[|front|];
      ContextAt(t.contexts[|front| - 1], EncodeAll(front)) == Context(SumOver(Continuations(m, front), m), |Continuations(m, front)|)
  {
    hide EncodeAll;
    hide Derived;
    hide SumOver;
    hide KeyOf;
    hide Prefix;
    hide Continues;
    var order, o := |front|, |front| - 1;
    var m := t.ngrams[order];
    assert WellKeyed(t.ngrams[order], order + 1);
    assert t.contexts[o] == Derived(t.ngrams[o + 1], o + 1);
    ContextOfPrefix(m, order, EncodeAll(front));
    forall key | key in m ensures Prefix(key, order) == EncodeAll(front) <==> Continues(key, front) {
      PrefixContinues(key, front);
    }
    assert Group(m, order, EncodeAll(front)) == Continuations(m, front);
  }

  lemma PrefixContinues(key: Bytes, front: seq<Bytes>)
    requires KeyOf(key, |front| + 1)
    ensures Prefix(key, |front|) == EncodeAll(front) <==> Continues(key, front)
  {
    hide EncodeAll;
    hide Learnable;
    var order := |front|;
    var items := Components(key, order + 1);
    if Prefix(key, order) == EncodeAll(front) {
      EncodeAllInjective(items[..order], front);
      assert items == front + [items[order]];
    }
    if last: Bytes :| key == EncodeAll(front + [last]) {
      EncodeAllInjective(items, front + [last]);
    }
  }
}
