/** What a prepared update does to the tables, step by step, as values.

    An update is a list of steps.  An n-gram step adds one to a count and to the
    total of its order; a context step follows its n-gram step and records
    whether that n-gram was new.  `Undo` is what a rollback does with one step. */
module Journal {
  import opened Bytes
  import opened Netstring
  import opened NgramStore

  datatype Step = Ngram(order: nat, end: nat) | ContextOf(order: nat, end: nat)
  {
    // The step concerns a complete window of the first n items.
    predicate Fits(n: nat) {
      1 <= order <= (if Ngram? then ORDERS else ORDERS - 1) && end < n && order <= end + 1
    }
  }

  // The items of the window that ends at `end`.
  function Window(items: seq<Bytes>, order: nat, end: nat): seq<Bytes>
    requires order <= end + 1 && end < |items|
  {
    items[end + 1 - order..end + 1]
  }

  function StepKey(items: seq<Bytes>, s: Step): Bytes
    requires s.Fits(|items|)
  {
    EncodeAll(Window(items, s.order, s.end))
  }

  // Nothing was counted under the key yet.
  function Fresh(t: Tables, items: seq<Bytes>, s: Step): bool
    requires t.Shape() && s.Fits(|items|)
  {
    var key := StepKey(items, s);
    if s.Ngram? then Count(t.ngrams[s.order - 1], key) == 0 else ContextAt(t.contexts[s.order - 1], key).total == 0
  }

  function Do(t: Tables, items: seq<Bytes>, s: Step, newContinuation: bool): Tables
    requires t.Shape() && s.Fits(|items|)
  {
    var key, i := StepKey(items, s), s.order - 1;
    if s.Ngram? then Tables(t.ngrams[i := Bump(t.ngrams[i], key)], t.contexts, t.totals[i := t.totals[i] + 1])
    else t.(contexts := t.contexts[i := BumpContext(t.contexts[i], key, newContinuation)])
  }

  function Drop<V>(m: map<Bytes, V>, key: Bytes): map<Bytes, V> {
    map k | k in m && k != key :: m[k]
  }

  function Less(a: nat, b: nat): nat {
    if a < b then 0 else a - b
  }

  // An inserted entry is removed; another one is decremented.
  function Undo(t: Tables, items: seq<Bytes>, s: Step, inserted: bool, newContinuation: bool): Tables
    requires t.Shape() && s.Fits(|items|)
  {
    var key, i := StepKey(items, s), s.order - 1;
    if s.Ngram? then
      var m := t.ngrams[i];
      Tables(t.ngrams[i := if inserted then Drop(m, key) else m[key := Less(Count(m, key), 1)]],
             t.contexts, t.totals[i := Less(t.totals[i], 1)])
    else
      var c := t.contexts[i];
      var at := ContextAt(c, key);
      t.(contexts := t.contexts[i :=
        if inserted then Drop(c, key)
        else c[key := Context(Less(at.total, 1), Less(at.continuations, if newContinuation then 1 else 0))]])
  }

  // Every entry is live.
  ghost predicate Live(t: Tables) {
    && t.Shape()
    && (forall o, key :: 0 <= o < ORDERS && key in t.ngrams[o] ==> t.ngrams[o][key] >= 1)
    && (forall o, key :: 0 <= o < ORDERS - 1 && key in t.contexts[o] ==> t.contexts[o][key].total >= 1)
  }

  lemma DoLive(t: Tables, items: seq<Bytes>, s: Step, newContinuation: bool)
    requires Live(t) && s.Fits(|items|)
    ensures Live(Do(t, items, s, newContinuation))
  {
  }

  /** Undoing a step with the flags recorded when it was done restores the tables exactly. */
  lemma UndoDo(t: Tables, items: seq<Bytes>, s: Step, newContinuation: bool)
    requires Live(t) && s.Fits(|items|)
    ensures Undo(Do(t, items, s, newContinuation), items, s, Fresh(t, items, s), newContinuation) == t
  {
    hide StepKey;
    var key, i := StepKey(items, s), s.order - 1;
    var done := Do(t, items, s, newContinuation);
    var back := Undo(done, items, s, Fresh(t, items, s), newContinuation);
    if s.Ngram? {
      var m := t.ngrams[i];
      assert Fresh(t, items, s) <==> key !in m;
      if key !in m {
        assert Drop(Bump(m, key), key) == m;
      } else {
        assert Bump(m, key)[key := m[key]] == m;
      }
      assert back.ngrams[i] == m;
      assert back.ngrams == t.ngrams && back.totals == t.totals;
    } else {
      var c := t.contexts[i];
      var more := BumpContext(c, key, newContinuation);
      assert Fresh(t, items, s) <==> key !in c;
      if key !in c {
        assert Drop(more, key) == c;
      } else {
        assert more[key := c[key]] == c;
      }
      assert back.contexts[i] == c;
      assert back.contexts == t.contexts;
    }
  }

  // ---- Runs ----

  /** The tables, and whether the last step met a fresh key. */
  datatype State = State(tables: Tables, isNew: bool)

  ghost predicate AllFit(steps: seq<Step>, n: nat) {
    forall i :: 0 <= i < |steps| ==> steps[i].Fits(n)
  }

  ghost function Advance(st: State, items: seq<Bytes>, s: Step): State
    requires st.tables.Shape() && s.Fits(|items|)
  {
    State(Do(st.tables, items, s, st.isNew), Fresh(st.tables, items, s))
  }

  ghost function Run(st: State, items: seq<Bytes>, steps: seq<Step>): (r: State)
    requires st.tables.Shape() && AllFit(steps, |items|)
    ensures r.tables.Shape()
  {
    if steps == [] then st
    else Advance(Run(st, items, steps[..|steps| - 1]), items, steps[|steps| - 1])
  }

  lemma RunStep(st: State, items: seq<Bytes>, steps: seq<Step>, i: nat)
    requires st.tables.Shape() && AllFit(steps, |items|) && i < |steps|
    ensures Run(st, items, steps[..i + 1]) == Advance(Run(st, items, steps[..i]), items, steps[i])
  {
    assert steps[..i + 1][..i] == steps[..i];
  }

  lemma {:induction false} RunLive(st: State, items: seq<Bytes>, steps: seq<Step>)
    requires Live(st.tables) && AllFit(steps, |items|)
    ensures Live(Run(st, items, steps).tables)
  {
    hide Live;
    hide Do;
    assert st.tables.Shape() by { LiveShape(st.tables); }
    if steps != [] {
      RunLive(st, items, steps[..|steps| - 1]);
      var before := Run(st, items, steps[..|steps| - 1]);
      DoLive(before.tables, items, steps[|steps| - 1], before.isNew);
    }
  }

  lemma LiveShape(t: Tables)
    requires Live(t)
    ensures t.Shape()
  {
  }

  lemma {:induction false} RunConcat(st: State, items: seq<Bytes>, a: seq<Step>, b: seq<Step>)
    requires st.tables.Shape() && AllFit(a, |items|) && AllFit(b, |items|)
    ensures AllFit(a + b, |items|) && Run(st, items, a + b) == Run(Run(st, items, a), items, b)
  {
    hide Advance;
    if b == [] {
      assert a + b == a;
    } else {
      var front := b[..|b| - 1];
      assert (a + b)[..|a + b| - 1] == a + front;
      RunConcat(st, items, a, front);
    }
  }

  // ---- The plan of an update ----

  // An n-gram and its context, if a complete window ends at e.
  function PairAt(order: nat, e: nat): seq<Step>
    requires order >= 2
  {
    if e + 1 >= order then [Ngram(order, e), ContextOf(order - 1, e - 1)] else []
  }

  function StepsAt(e: nat): seq<Step> {
    [Ngram(1, e)] + PairAt(2, e) + PairAt(3, e) + PairAt(4, e)
  }

  function Plan(n: nat): seq<Step> {
    if n == 0 then [] else Plan(n - 1) + StepsAt(n - 1)
  }

  lemma {:induction false} PlanFits(n: nat, count: nat)
    requires n <= count
    ensures AllFit(Plan(n), count)
  {
    if n > 0 {
      PlanFits(n - 1, count);
    }
  }

  // ---- What a whole plan means ----

  ghost function AddWindow(t: Tables, items: seq<Bytes>, order: nat, e: nat): (r: Tables)
    requires t.Shape() && 1 <= order <= ORDERS && e < |items|
    ensures r.Shape()
  {
    if e + 1 < order then t
    else
      var window := Window(items, order, e);
      var i, key := order - 1, EncodeAll(window);
      Tables(t.ngrams[i := Bump(t.ngrams[i], key)],
             if order == 1 then t.contexts
             else t.contexts[i - 1 := BumpContext(t.contexts[i - 1], EncodeAll(window[..order - 1]), Count(t.ngrams[i], key) == 0)],
             t.totals[i := t.totals[i] + 1])
  }

  ghost function LearnAt(t: Tables, items: seq<Bytes>, e: nat): (r: Tables)
    requires t.Shape() && e < |items|
    ensures r.Shape()
  {
    AddWindow(AddWindow(AddWindow(AddWindow(t, items, 1, e), items, 2, e), items, 3, e), items, 4, e)
  }

  ghost function Learn(t: Tables, items: seq<Bytes>, n: nat): (r: Tables)
    requires t.Shape() && n <= |items|
    ensures r.Shape()
  {
    if n == 0 then t else LearnAt(Learn(t, items, n - 1), items, n - 1)
  }

  lemma RunTwo(st: State, items: seq<Bytes>, a: Step, b: Step)
    requires st.tables.Shape() && a.Fits(|items|) && b.Fits(|items|)
    ensures AllFit([a, b], |items|)
    ensures Advance(st, items, a).tables.Shape()
    ensures Run(st, items, [a, b]) == Advance(Advance(st, items, a), items, b)
  {
    hide Advance;
    assert [a, b][..1] == [a] && [a][..0] == [];
    assert AllFit([a], |items|);
    assert Run(st, items, [a]) == Advance(Run(st, items, []), items, a);
  }

  // An n-gram step and its context step add one window.
  lemma PairAdvances(st: State, items: seq<Bytes>, order: nat, e: nat)
    requires st.tables.Shape() && 2 <= order <= ORDERS && order <= e + 1 <= |items|
    requires Advance(st, items, Ngram(order, e)).tables.Shape()
    ensures Advance(Advance(st, items, Ngram(order, e)), items, ContextOf(order - 1, e - 1)).tables
      == AddWindow(st.tables, items, order, e)
  {
    hide EncodeAll;
    hide Bump;
    hide BumpContext;
    assert Window(items, order, e)[..order - 1] == Window(items, order - 1, e - 1);
  }

  lemma PairRun(st: State, items: seq<Bytes>, order: nat, e: nat)
    requires st.tables.Shape() && 2 <= order <= ORDERS && e < |items|
    ensures AllFit(PairAt(order, e), |items|)
    ensures Run(st, items, PairAt(order, e)).tables == AddWindow(st.tables, items, order, e)
  {
    hide Run;
    hide Do;
    hide Fresh;
    if e + 1 >= order {
      RunTwo(st, items, Ngram(order, e), ContextOf(order - 1, e - 1));
      PairAdvances(st, items, order, e);
    } else {
      RunNone(st, items);
    }
  }

  lemma RunNone(st: State, items: seq<Bytes>)
    requires st.tables.Shape()
    ensures Run(st, items, []) == st
  {
  }

  lemma StepsRun(st: State, items: seq<Bytes>, e: nat)
    requires st.tables.Shape() && e < |items|
    ensures AllFit(StepsAt(e), |items|)
    ensures Run(st, items, StepsAt(e)).tables == LearnAt(st.tables, items, e)
  {
    hide Advance;
    hide AddWindow;
    var first := [Ngram(1, e)];
    assert AllFit(first, |items|);
    FirstRun(st, items, e);
    var s1 := Run(st, items, first);
    PairRun(s1, items, 2, e);
    RunConcat(st, items, first, PairAt(2, e));
    var s2 := Run(s1, items, PairAt(2, e));
    PairRun(s2, items, 3, e);
    RunConcat(st, items, first + PairAt(2, e), PairAt(3, e));
    var s3 := Run(s2, items, PairAt(3, e));
    PairRun(s3, items, 4, e);
    RunConcat(st, items, first + PairAt(2, e) + PairAt(3, e), PairAt(4, e));
  }

  lemma FirstRun(st: State, items: seq<Bytes>, e: nat)
    requires st.tables.Shape() && e < |items|
    ensures Run(st, items, [Ngram(1, e)]).tables == AddWindow(st.tables, items, 1, e)
  {
    assert [Ngram(1, e)][..0] == [];
    assert Run(st, items, [Ngram(1, e)]) == Advance(Run(st, items, []), items, Ngram(1, e));
  }

  /** Running the whole plan learns every window of the sequence once. */
  lemma {:induction false} PlanLearns(st: State, items: seq<Bytes>, n: nat)
    requires st.tables.Shape() && n <= |items|
    ensures AllFit(Plan(n), |items|)
    ensures Run(st, items, Plan(n)).tables == Learn(st.tables, items, n)
  {
    hide StepsAt;
    hide LearnAt;
    hide Advance;
    hide AllFit;
    PlanFits(n, |items|);
    RunNone(st, items);
    if n > 0 {
      PlanFits(n - 1, |items|);
      PlanLearns(st, items, n - 1);
      StepsRun(Run(st, items, Plan(n - 1)), items, n - 1);
      RunConcat(st, items, Plan(n - 1), StepsAt(n - 1));
    }
  }

  // How often the key is a window of the first n items.
  ghost function Occurrences(items: seq<Bytes>, n: nat, order: nat, key: Bytes): nat
    requires n <= |items|
  {
    if n == 0 then 0
    else
      var here := if n >= order && EncodeAll(Window(items, order, n - 1)) == key then 1 else 0;
      Occurrences(items, n - 1, order, key) + here
  }

  function Windows(n: nat, order: nat): nat
    requires order >= 1
  {
    if n + 1 < order then 0 else n + 1 - order
  }

  /** The counts of t2 are those of t1 plus the histogram of the windows of the items. */
  ghost predicate Histogram(t1: Tables, t2: Tables, items: seq<Bytes>, n: nat)
    requires n <= |items|
  {
    && t1.Shape() && t2.Shape()
    && (forall i, key :: 0 <= i < ORDERS ==>
         Count(t2.ngrams[i], key) == Count(t1.ngrams[i], key) + Occurrences(items, n, i + 1, key))
    && (forall i :: 0 <= i < ORDERS ==> t2.totals[i] == t1.totals[i] + Windows(n, i + 1))
  }

  lemma AddWindowCounts(t: Tables, items: seq<Bytes>, order: nat, e: nat, o: nat, key: Bytes)
    requires t.Shape() && 1 <= order <= ORDERS && e < |items| && 1 <= o <= ORDERS
    ensures var r := AddWindow(t, items, order, e);
      var met := o == order && e + 1 >= order && EncodeAll(Window(items, order, e)) == key;
      Count(r.ngrams[o - 1], key) == Count(t.ngrams[o - 1], key) + if met then 1 else 0
    ensures AddWindow(t, items, order, e).totals[o - 1] == t.totals[o - 1] + if o == order && e + 1 >= order then 1 else 0
  {
  }

  lemma LearnAtCounts(t: Tables, items: seq<Bytes>, e: nat, o: nat, key: Bytes)
    requires t.Shape() && e < |items| && 1 <= o <= ORDERS
    ensures var r := LearnAt(t, items, e);
      var met := e + 1 >= o && EncodeAll(Window(items, o, e)) == key;
      Count(r.ngrams[o - 1], key) == Count(t.ngrams[o - 1], key) + if met then 1 else 0
    ensures LearnAt(t, items, e).totals[o - 1] == t.totals[o - 1] + if e + 1 >= o then 1 else 0
  {
    hide AddWindow;
    hide Count;
    var t1 := AddWindow(t, items, 1, e);
    var t2 := AddWindow(t1, items, 2, e);
    var t3 := AddWindow(t2, items, 3, e);
    AddWindowCounts(t, items, 1, e, o, key);
    AddWindowCounts(t1, items, 2, e, o, key);
    AddWindowCounts(t2, items, 3, e, o, key);
    AddWindowCounts(t3, items, 4, e, o, key);
  }

  /** Learning adds the naive histogram of the sequence. */
  lemma {:induction false} LearnIsHistogram(t: Tables, items: seq<Bytes>, n: nat)
    requires t.Shape() && n <= |items|
    ensures Histogram(t, Learn(t, items, n), items, n)
  {
    hide LearnAt;
    hide Count;
    hide EncodeAll;
    hide Window;
    if n > 0 {
      LearnIsHistogram(t, items, n - 1);
      forall i, key | 0 <= i < ORDERS
        ensures Count(Learn(t, items, n).ngrams[i], key) == Count(t.ngrams[i], key) + Occurrences(items, n, i + 1, key)
      {
        LearnAtCounts(Learn(t, items, n - 1), items, n - 1, i + 1, key);
      }
      forall i | 0 <= i < ORDERS ensures Learn(t, items, n).totals[i] == t.totals[i] + Windows(n, i + 1) {
        LearnAtCounts(Learn(t, items, n - 1), items, n - 1, i + 1, []);
      }
    }
  }

  // One window keeps the context tables and totals in step with the counts.
  lemma AddWindowConsistent(t: Tables, items: seq<Bytes>, order: nat, e: nat)
    requires Consistent(t) && Learnable(items) && 1 <= order <= ORDERS && e < |items|
    ensures Consistent(AddWindow(t, items, order, e))
  {
    hide Derived;
    hide BumpContext;
    hide SumOver;
    hide KeyOf;
    hide EncodeAll;
    hide Prefix;
    hide Bump;
    if e + 1 >= order {
      var window := Window(items, order, e);
      var i, key := order - 1, EncodeAll(window);
      var r := AddWindow(t, items, order, e);
      PrefixOf(window, order - 1);
      BumpKeyed(t.ngrams[i], key, order);
      BumpTotal(t.ngrams[i], key);
      BumpDerived(t.ngrams[i], key, order - 1);
      assert key in t.ngrams[i] ==> t.ngrams[i][key] >= 1;
    }
  }

  /** Learning keeps the invariant: contexts always equal what a rebuild would compute. */
  lemma {:induction false} LearnConsistent(t: Tables, items: seq<Bytes>, n: nat)
    requires Consistent(t) && Learnable(items) && n <= |items|
    ensures Consistent(Learn(t, items, n))
  {
    hide AddWindow;
    hide Consistent;
    ConsistentShape(t);
    if n > 0 {
      LearnConsistent(t, items, n - 1);
      var s := Learn(t, items, n - 1);
      var s1 := AddWindow(s, items, 1, n - 1);
      var s2 := AddWindow(s1, items, 2, n - 1);
      var s3 := AddWindow(s2, items, 3, n - 1);
      AddWindowConsistent(s, items, 1, n - 1);
      AddWindowConsistent(s1, items, 2, n - 1);
      AddWindowConsistent(s2, items, 3, n - 1);
      AddWindowConsistent(s3, items, 4, n - 1);
    }
  }

  lemma ConsistentShape(t: Tables)
    requires Consistent(t)
    ensures t.Shape()
  {
  }

  lemma ConsistentLive(t: Tables)
    requires Consistent(t)
    ensures Live(t)
  {
    hide KeyOf;
    forall o, key | 0 <= o < ORDERS - 1 && key in t.contexts[o] ensures t.contexts[o][key].total >= 1 {
      DerivedLive(t.ngrams[o + 1], o + 1, key);
    }
  }

  lemma DerivedLive(m: Table, order: nat, prefix: Bytes)
    requires WellKeyed(m, order + 1) && prefix in Derived(m, order)
    ensures Derived(m, order)[prefix].total >= Derived(m, order)[prefix].continuations >= 1
  {
    hide KeyOf;
    hide Prefix;
    var group := Group(m, order, prefix);
    var key :| key in m && Prefix(key, order) == prefix;
    assert key in group;
    assert |group| >= 1;
    SumBounds(group, m);
  }

  // ---- Written out ----

  // The key is the window of that order that ends at e.
  ghost predicate EndsAt(items: seq<Bytes>, order: nat, key: Bytes, e: nat) {
    order <= e + 1 <= |items| && EncodeAll(items[e + 1 - order..e + 1]) == key
  }

  ghost function EndsOf(items: seq<Bytes>, n: nat, order: nat, key: Bytes): set<nat> {
    set e: nat | e < n && EndsAt(items, order, key, e)
  }

  /** Occurrences are counted once for every position at which the key is a window of that order, and
      a sequence of n items has n + 1 - order of them, or none. */
  lemma {:induction false} OccurrencesAre(items: seq<Bytes>, n: nat, order: nat, key: Bytes)
    requires n <= |items| && order >= 1
    ensures Occurrences(items, n, order, key) == |EndsOf(items, n, order, key)|
    ensures Windows(n, order) + order == if n >= order then n + 1 else order
  {
    hide EndsAt;
    if n == 0 {
      assert EndsOf(items, n, order, key) == {};
    } else {
      OccurrencesAre(items, n - 1, order, key);
      var before, last: nat := EndsOf(items, n - 1, order, key), n - 1;
      WindowEnds(items, n, order, key);
      assert EndsOf(items, n, order, key) == if EndsAt(items, order, key, last) then before + {last} else before;
    }
  }

  lemma WindowEnds(items: seq<Bytes>, n: nat, order: nat, key: Bytes)
    requires 0 < n <= |items| && order >= 1
    ensures Occurrences(items, n, order, key) == Occurrences(items, n - 1, order, key) + if EndsAt(items, order, key, n - 1) then 1 else 0
  {
    hide EncodeAll;
  }
}
