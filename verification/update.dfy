/** Transactional updates of a model.

    An update is prepared as a journal of steps, applied step by step, and rolled
    back in reverse if a step fails.  Every step may fail for lack of memory; the
    oracle `fails` says which. */
module ModelUpdate {
  import opened Bytes
  import opened Netstring
  import opened NgramStore
  import opened Journal

  datatype Status = Ok | OutOfMemory | Limit | BadFormat | BadArgument

  datatype Action = Action(step: Step, inserted: bool, newContinuation: bool, applied: bool)

  class Model {
    var ngrams: seq<Table>
    var contexts: seq<ContextTable>
    var totals: seq<nat>
    var vocabSize: nat
    var unkCount: nat
    var oom: bool
    var alpha: real
    var discount: real

    ghost function View(): Tables
      reads this
    {
      Tables(ngrams, contexts, totals)
    }

    ghost predicate Valid()
      reads this
    {
      Consistent(View()) && vocabSize == |ngrams[0]|
    }

    constructor (alpha: real)
      ensures Valid() && !oom && this.alpha == alpha && discount == 0.5
      ensures View() == Tables([map[], map[], map[], map[]], [map[], map[], map[]], [0, 0, 0, 0])
      ensures unkCount == 0
    {
      ngrams, contexts, totals := [map[], map[], map[], map[]], [map[], map[], map[]], [0, 0, 0, 0];
      vocabSize, unkCount, oom := 0, 0, false;
      this.alpha, discount := alpha, 0.5;
      NothingCounted();
    }

    /** The count under the key, and whether it, its total and the unknown count can take one more. */
    method Room(s: Step, key: Bytes) returns (previous: nat, room: bool)
      requires View().Shape() && HasTable(s)
      ensures previous == Counted(View(), s, key) && (room <==> !Full(View(), unkCount, s, key))
      ensures room <==> (previous < 0x7FFF_FFFF_FFFF_FFFF
        && !(s.Ngram? && totals[s.order - 1] == 0xFFFF_FFFF_FFFF_FFFF)
        && !(s.Ngram? && s.order == 1 && previous == 0 && unkCount == 0xFFFF_FFFF_FFFF_FFFF))
    {
      var table := s.order - 1;
      if s.ContextOf? {
        previous := ContextAt(contexts[table], key).total;
      } else {
        previous := Count(ngrams[table], key);
      }
      room := !(previous >= INT64_MAX || (s.Ngram? && totals[table] == SIZE_MAX)
                || (s.Ngram? && table == 0 && previous == 0 && unkCount == SIZE_MAX));
    }

    /** Count one more occurrence under the key. */
    method Add(s: Step, key: Bytes, isNew: bool)
      requires View().Shape() && HasTable(s)
      modifies `ngrams, `contexts, `totals
      ensures View() == DoAt(old(View()), s, key, isNew)
    {
      var table := s.order - 1;
      if s.ContextOf? {
        contexts := contexts[table := BumpContext(contexts[table], key, isNew)];
      } else {
        ngrams := ngrams[table := Bump(ngrams[table], key)];
        totals := totals[table := totals[table] + 1];
      }
    }

    /** Take one occurrence back: an entry that was inserted goes, another one is decremented. */
    method Remove(s: Step, key: Bytes, inserted: bool, isNew: bool)
      requires View().Shape() && HasTable(s)
      modifies `ngrams, `contexts, `totals
      ensures View() == UndoAt(old(View()), s, key, inserted, isNew)
    {
      var table := s.order - 1;
      if s.ContextOf? {
        var c, at := contexts[table], ContextAt(contexts[table], key);
        contexts := contexts[table :=
          if inserted then Drop(c, key)
          else c[key := Context(Less(at.total, 1), Less(at.continuations, if isNew then 1 else 0))]];
      } else {
        var m := ngrams[table];
        ngrams := ngrams[table := if inserted then Drop(m, key) else m[key := Less(Count(m, key), 1)]];
        totals := totals[table := Less(totals[table], 1)];
      }
    }
  }

  lemma NothingCounted()
    ensures Consistent(Tables([map[], map[], map[], map[]], [map[], map[], map[]], [0, 0, 0, 0]))
  {
    hide WellKeyed;
    hide Derived;
    hide SumOver;
    EmptyTable(1);
    EmptyTable(2);
    EmptyTable(3);
    EmptyTable(4);
  }

  lemma EmptyTable(n: nat)
    requires n >= 1
    ensures WellKeyed(map[], n) && Derived(map[], n - 1) == map[]
    ensures var none: Table := map[]; SumOver(none.Keys, none) == 0
  {
    hide KeyOf;
  }

  // ---- One step under its key ----

  predicate HasTable(s: Step) {
    1 <= s.order <= if s.Ngram? then ORDERS else ORDERS - 1
  }

  function Counted(t: Tables, s: Step, key: Bytes): nat
    requires t.Shape() && HasTable(s)
  {
    if s.Ngram? then Count(t.ngrams[s.order - 1], key) else ContextAt(t.contexts[s.order - 1], key).total
  }

  function DoAt(t: Tables, s: Step, key: Bytes, isNew: bool): Tables
    requires t.Shape() && HasTable(s)
  {
    var i := s.order - 1;
    if s.Ngram? then Tables(t.ngrams[i := Bump(t.ngrams[i], key)], t.contexts, t.totals[i := t.totals[i] + 1])
    else Tables(t.ngrams, t.contexts[i := BumpContext(t.contexts[i], key, isNew)], t.totals)
  }

  function UndoAt(t: Tables, s: Step, key: Bytes, inserted: bool, isNew: bool): Tables
    requires t.Shape() && HasTable(s)
  {
    var i := s.order - 1;
    if s.Ngram? then
      var m := t.ngrams[i];
      Tables(t.ngrams[i := if inserted then Drop(m, key) else m[key := Less(Count(m, key), 1)]],
             t.contexts, t.totals[i := Less(t.totals[i], 1)])
    else
      var c, at := t.contexts[i], ContextAt(t.contexts[i], key);
      var less := Context(Less(at.total, 1), Less(at.continuations, if isNew then 1 else 0));
      Tables(t.ngrams, t.contexts[i := if inserted then Drop(c, key) else c[key := less]], t.totals)
  }

  lemma StepAt(t: Tables, items: seq<Bytes>, s: Step, key: Bytes, isNew: bool, inserted: bool)
    requires t.Shape() && s.Fits(|items|) && key == StepKey(items, s)
    ensures Do(t, items, s, isNew) == DoAt(t, s, key, isNew)
    ensures Undo(t, items, s, inserted, isNew) == UndoAt(t, s, key, inserted, isNew)
    ensures Fresh(t, items, s) <==> Counted(t, s, key) == 0
    ensures DoAt(t, s, key, isNew).Shape()
  {
  }

  // A counter or a total has no room for one more.
  predicate Full(t: Tables, unkCount: nat, s: Step, key: Bytes)
    requires t.Shape() && HasTable(s)
  {
    || Counted(t, s, key) >= INT64_MAX
    || (s.Ngram? && t.totals[s.order - 1] == SIZE_MAX)
    || (Added(t, s, key) == 1 && unkCount == SIZE_MAX)
  }

  // A stage that was never counted adds one to the unknown count.
  function Added(t: Tables, s: Step, key: Bytes): nat
    requires t.Shape() && HasTable(s)
  {
    if s.Ngram? && s.order == 1 && Counted(t, s, key) == 0 then 1 else 0
  }

  // ---- Preparation ----

  // The input is a sequence of records.
  ghost predicate Framed(netseq: Bytes) {
    exists items: seq<Bytes> :: netseq == EncodeAll(items)
  }

  // No reading of the input can be learned.
  ghost predicate NotLearnable(netseq: Bytes) {
    forall whole: seq<Bytes> :: netseq == EncodeAll(whole) ==> !Learnable(whole)
  }

  /** Check the framing and the item lengths of an input, and read its items. */
  method Validate(netseq: Bytes) returns (status: Status, items: seq<Bytes>)
    ensures status == Ok ==> netseq == EncodeAll(items) && Learnable(items)
    ensures status == Ok ==> forall i :: 0 <= i < |items| ==> |items[i]| <= 1023
    ensures status != Ok ==> status == Limit || status == BadFormat
    ensures status != Ok ==> NotLearnable(netseq)
    ensures status == BadFormat ==> !Framed(netseq)
  {
    hide Next;
    hide Encode;
    items := [];
    var rest := netseq;
    assert EncodeAll([]) + netseq == netseq;
    while rest != []
      invariant netseq == EncodeAll(items) + rest && Learnable(items)
      decreases |rest|
    {
      ghost var before := rest;
      match Next(rest) {
        case Malformed =>
          forall whole | netseq == EncodeAll(whole) ensures false {
            SuffixIsRecords(whole, items, rest);
          }
          return BadFormat, items;
        case Record(payload, more) =>
          NextIsRecord(rest, payload, more);
          if |payload| > MAX_STAGE {
            forall whole | netseq == EncodeAll(whole) ensures !Learnable(whole) {
              TooLongItem(whole, items, payload, more);
            }
            return Limit, items;
          }
          EncodeNonempty(payload);
          assert (items + [payload])[..|items|] == items;
          items, rest := items + [payload], more;
      }
    }
    assert EncodeAll(items) + [] == EncodeAll(items);
    status := Ok;
  }

  lemma TooLongItem(whole: seq<Bytes>, items: seq<Bytes>, payload: Bytes, more: Bytes)
    requires EncodeAll(whole) == EncodeAll(items) + (Encode(payload) + more)
    requires |payload| > MAX_STAGE
    ensures !Learnable(whole)
  {
    hide Encode;
    var longer := items + [payload];
    assert longer[..|items|] == items;
    assert EncodeAll(whole) == EncodeAll(longer) + more;
    if |longer| <= |whole| {
      SharedPrefix(whole, longer, more);
      assert whole[|items|] == longer[|items|];
    } else {
      SharedSuffix(whole, longer, more);
    }
  }

  // Fewer records cannot spell more bytes.
  lemma {:induction false} SharedSuffix(whole: seq<Bytes>, longer: seq<Bytes>, more: Bytes)
    requires EncodeAll(whole) == EncodeAll(longer) + more && |whole| < |longer|
    ensures false
  {
    hide Encode;
    hide Next;
    EncodeAllFirst(longer);
    EncodeNonempty(longer[0]);
    if whole != [] {
      var tail := EncodeAll(longer[1..]) + more;
      assert EncodeAll(whole) == Encode(longer[0]) + tail;
      EncodeAllFirst(whole);
      EncodedIsParsed(whole[0], EncodeAll(whole[1..]));
      EncodedIsParsed(longer[0], tail);
      SharedSuffix(whole[1..], longer[1..], more);
    }
  }

  ghost predicate Journals(actions: seq<Action>, plan: seq<Step>) {
    |actions| == |plan| && forall i :: 0 <= i < |plan| ==> actions[i].step == plan[i]
  }

  function NotApplied(s: Step): Action {
    Action(s, false, false, false)
  }

  lemma JournalsMore(actions: seq<Action>, plan: seq<Step>, moreActions: seq<Action>, more: seq<Step>)
    requires Journals(actions, plan) && Journals(moreActions, more)
    ensures Journals(actions + moreActions, plan + more)
  {
  }

  /** The actions of one more item: its own count, and for every longer window
      that ends at it the n-gram and then its context. */
  method ItemActions(index: nat) returns (actions: seq<Action>)
    ensures Journals(actions, StepsAt(index))
  {
    actions := [NotApplied(Ngram(1, index))];
    if index >= 1 {
      actions := actions + [NotApplied(Ngram(2, index)), NotApplied(ContextOf(1, index - 1))];
    }
    if index >= 2 {
      actions := actions + [NotApplied(Ngram(3, index)), NotApplied(ContextOf(2, index - 1))];
    }
    if index >= 3 {
      actions := actions + [NotApplied(Ngram(4, index)), NotApplied(ContextOf(3, index - 1))];
    }
  }

  method PlanActions(count: nat) returns (actions: seq<Action>)
    ensures Journals(actions, Plan(count))
  {
    hide Journals;
    hide StepsAt;
    actions := [];
    assert Journals([], Plan(0)) by { NothingJournaled(); }
    for index := 0 to count
      invariant Journals(actions, Plan(index))
    {
      var more := ItemActions(index);
      JournalsMore(actions, Plan(index), more, StepsAt(index));
      actions := actions + more;
    }
  }

  lemma NothingJournaled()
    ensures Journals([], Plan(0))
  {
  }

  // The state after the first i steps of the plan.
  ghost function Reached(items: seq<Bytes>, t0: Tables, i: nat): Journal.State
    requires t0.Shape() && AllFit(Plan(|items|), |items|) && i <= |Plan(|items|)|
  {
    Run(Journal.State(t0, false), items, Plan(|items|)[..i])
  }

  // The journal entry of a step that has been done.
  ghost predicate Recorded(items: seq<Bytes>, t0: Tables, j: nat, a: Action)
    requires t0.Shape() && AllFit(Plan(|items|), |items|) && j < |Plan(|items|)|
  {
    && a.applied
    && a.inserted == Fresh(Reached(items, t0, j).tables, items, Plan(|items|)[j])
    && (Plan(|items|)[j].ContextOf? ==> a.newContinuation == Reached(items, t0, j).isNew)
  }

  // The first k steps have been done to t0, with this result, and the journal says how.
  ghost predicate Done(items: seq<Bytes>, t0: Tables, actions: seq<Action>, k: nat, tables: Tables) {
    && Live(t0) && Learnable(items) && AllFit(Plan(|items|), |items|)
    && Journals(actions, Plan(|items|)) && k <= |actions|
    && tables == Reached(items, t0, k).tables
    && forall j :: 0 <= j < k ==> Recorded(items, t0, j, actions[j])
  }

  // Step k of the plan meets a counter or a total without room for one more.
  ghost predicate NoRoom(items: seq<Bytes>, t0: Tables, unk0: nat, k: nat, added: nat) {
    && t0.Shape() && AllFit(Plan(|items|), |items|) && k < |Plan(|items|)|
    && var reached := Reached(items, t0, k).tables;
       |reached.ngrams[0]| == |t0.ngrams[0]| + added && Full(reached, unk0 + added, Plan(|items|)[k], StepKey(items, Plan(|items|)[k]))
  }

  // Step k of the plan, done after the steps before it, meets a counter without room.
  ghost predicate StepBlocked(items: seq<Bytes>, t0: Tables, unk0: nat, k: nat) {
    exists added: nat :: NoRoom(items, t0, unk0, k, added)
  }

  // Some step of the plan meets a counter without room.
  ghost predicate NoRoomFor(items: seq<Bytes>, t0: Tables, unk0: nat) {
    exists k: nat :: StepBlocked(items, t0, unk0, k)
  }

  // The first n steps of the plan have room and memory.
  ghost predicate Clear(items: seq<Bytes>, t0: Tables, unk0: nat, fails: nat -> bool, n: nat) {
    forall j: nat :: j < n ==> !fails(j) && !StepBlocked(items, t0, unk0, j)
  }

  // Step k is the first that cannot be done, and this says why.
  ghost predicate StopsAt(items: seq<Bytes>, t0: Tables, unk0: nat, fails: nat -> bool, k: nat, status: Status) {
    && k < |Plan(|items|)| && Clear(items, t0, unk0, fails, k)
    && (if StepBlocked(items, t0, unk0, k) then status == Limit else fails(k) && status == OutOfMemory)
  }

  /** How an update that was prepared ends: every step is done, or the first that cannot be decides. */
  ghost predicate Ends(items: seq<Bytes>, t0: Tables, unk0: nat, fails: nat -> bool, status: Status) {
    if status == Ok then Clear(items, t0, unk0, fails, |Plan(|items|)|)
    else exists k: nat :: StopsAt(items, t0, unk0, fails, k, status)
  }

  lemma EndsOnce(items: seq<Bytes>, t0: Tables, unk0: nat, fails: nat -> bool, a: Status, b: Status)
    requires Ends(items, t0, unk0, fails, a) && Ends(items, t0, unk0, fails, b)
    ensures a == b
  {
    hide StepBlocked;
    hide Plan;
    if a != Ok && b != Ok {
      var j: nat :| StopsAt(items, t0, unk0, fails, j, a);
      var k: nat :| StopsAt(items, t0, unk0, fails, k, b);
    }
  }

  // What the guard of the next step sees is what the plan meets.
  lemma RoomAt(items: seq<Bytes>, t0: Tables, actions: seq<Action>, k: nat, tables: Tables, unk0: nat, added: nat)
    requires Done(items, t0, actions, k, tables) && k < |actions|
    requires t0.Shape() && tables.Shape() && actions[k].step.Fits(|items|)
    requires |tables.ngrams[0]| == |t0.ngrams[0]| + added
    ensures StepBlocked(items, t0, unk0, k) <==> Full(tables, unk0 + added, actions[k].step, StepKey(items, actions[k].step))
  {
    hide Reached;
    hide Full;
    hide Live;
    hide Recorded;
    if Full(tables, unk0 + added, actions[k].step, StepKey(items, actions[k].step)) {
      assert NoRoom(items, t0, unk0, k, added);
    }
  }

  lemma NothingDone(items: seq<Bytes>, t0: Tables, actions: seq<Action>)
    requires Live(t0) && Learnable(items) && Journals(actions, Plan(|items|))
    ensures Done(items, t0, actions, 0, t0)
  {
    PlanFits(|items|, |items|);
  }

  // What is known of the step that follows k steps.
  lemma NextFits(items: seq<Bytes>, t0: Tables, actions: seq<Action>, k: nat, tables: Tables)
    requires Done(items, t0, actions, k, tables) && k < |actions|
    ensures t0.Shape() && tables.Shape() && Learnable(items) && actions[k].step.Fits(|items|)
    ensures actions[k].step.ContextOf? ==> k > 0
    ensures AllFit(Plan(|items|), |items|) && |actions| == |Plan(|items|)| && actions[k].step == Plan(|items|)[k]
  {
    hide Run;
    LiveShape(t0);
    if actions[k].step.ContextOf? {
      ContextsFollow(|items|, k);
    }
  }

  // Until a step is done, its flags do not matter.
  lemma FlagsOnly(items: seq<Bytes>, t0: Tables, actions: seq<Action>, k: nat, tables: Tables, a: Action)
    requires Done(items, t0, actions, k, tables) && k < |actions| && a.step == actions[k].step
    ensures Done(items, t0, actions[k := a], k, tables)
  {
    hide Reached;
    hide Recorded;
    hide AllFit;
    hide Live;
  }

  // The flag a context step uses is the one its n-gram step recorded.
  lemma FlagOfContext(items: seq<Bytes>, t0: Tables, actions: seq<Action>, k: nat, tables: Tables)
    requires Done(items, t0, actions, k, tables) && 0 < k < |actions|
    requires t0.Shape() && AllFit(Plan(|items|), |items|) && |actions| == |Plan(|items|)|
    ensures Reached(items, t0, k).isNew == actions[k - 1].inserted
  {
    hide Live;
    hide Fresh;
    hide Do;
    RunStep(Journal.State(t0, false), items, Plan(|items|), k - 1);
    assert Recorded(items, t0, k - 1, actions[k - 1]);
  }

  lemma NgramIgnoresFlag(t: Tables, items: seq<Bytes>, s: Step, a: bool, b: bool)
    requires t.Shape() && s.Fits(|items|) && s.Ngram?
    ensures Do(t, items, s, a) == Do(t, items, s, b)
  {
  }

  lemma ReachedMore(items: seq<Bytes>, t0: Tables, k: nat, isNew: bool)
    requires t0.Shape() && AllFit(Plan(|items|), |items|) && k < |Plan(|items|)|
    requires Plan(|items|)[k].ContextOf? ==> isNew == Reached(items, t0, k).isNew
    ensures Reached(items, t0, k + 1).tables == Do(Reached(items, t0, k).tables, items, Plan(|items|)[k], isNew)
  {
    hide Do;
    hide Fresh;
    RunStep(Journal.State(t0, false), items, Plan(|items|), k);
    var step := Plan(|items|)[k];
    if step.Ngram? {
      NgramIgnoresFlag(Reached(items, t0, k).tables, items, step, isNew, Reached(items, t0, k).isNew);
    }
  }

  // The journal entry to write when step k is done.
  function Entry(tables: Tables, items: seq<Bytes>, actions: seq<Action>, k: nat): Action
    requires k < |actions| && tables.Shape() && actions[k].step.Fits(|items|)
    requires actions[k].step.ContextOf? ==> k > 0
  {
    var step := actions[k].step;
    Action(step, Fresh(tables, items, step), step.ContextOf? && actions[k - 1].inserted, true)
  }

  /** Doing the next step, and recording what it met, extends the journal. */
  lemma NextStep(items: seq<Bytes>, t0: Tables, actions: seq<Action>, k: nat, tables: Tables)
    requires Done(items, t0, actions, k, tables) && k < |actions|
    requires tables.Shape() && actions[k].step.Fits(|items|) && (actions[k].step.ContextOf? ==> k > 0)
    ensures var entry := Entry(tables, items, actions, k);
      Done(items, t0, actions[k := entry], k + 1, Do(tables, items, entry.step, entry.newContinuation))
  {
    hide Live;
    hide Reached;
    hide Fresh;
    hide Do;
    NextFits(items, t0, actions, k, tables);
    if actions[k].step.ContextOf? {
      FlagOfContext(items, t0, actions, k, tables);
    }
    ReachedMore(items, t0, k, Entry(tables, items, actions, k).newContinuation);
  }

  /** Undoing the last step that was done leaves the steps before it done. */
  lemma LastStep(items: seq<Bytes>, t0: Tables, actions: seq<Action>, k: nat, tables: Tables)
    requires Done(items, t0, actions, k, tables) && 0 < k
    ensures k <= |actions| && Learnable(items)
    ensures var last := actions[k - 1];
      && last.applied && tables.Shape() && last.step.Fits(|items|)
      && Done(items, t0, actions[k - 1 := last.(applied := false)], k - 1,
              Undo(tables, items, last.step, last.inserted, last.newContinuation))
  {
    hide Live;
    hide Reached;
    hide Fresh;
    hide Do;
    hide Undo;
    LiveShape(t0);
    var last, before := actions[k - 1], Reached(items, t0, k - 1).tables;
    assert Recorded(items, t0, k - 1, last);
    ReachedLive(items, t0, k - 1);
    ReachedLive(items, t0, k);
    LiveShape(tables);
    ReachedMore(items, t0, k - 1, last.newContinuation);
    UndoDo(before, items, last.step, last.newContinuation);
  }

  lemma ReachedLive(items: seq<Bytes>, t0: Tables, k: nat)
    requires Live(t0) && AllFit(Plan(|items|), |items|) && k <= |Plan(|items|)|
    ensures t0.Shape() && Live(Reached(items, t0, k).tables)
  {
    RunLive(Journal.State(t0, false), items, Plan(|items|)[..k]);
  }

  lemma DoneLive(items: seq<Bytes>, t0: Tables, actions: seq<Action>, k: nat, tables: Tables)
    requires Done(items, t0, actions, k, tables)
    ensures Live(tables)
  {
    hide Live;
    hide Reached;
    ReachedLive(items, t0, k);
  }

  // The number of distinct stages grows with every new stage.
  lemma SizeAfter(tables: Tables, s: Step, key: Bytes, isNew: bool)
    requires Live(tables) && HasTable(s)
    ensures tables.Shape()
    ensures |DoAt(tables, s, key, isNew).ngrams[0]| ==
      |tables.ngrams[0]| + Added(tables, s, key)
  {
    if s.Ngram? && s.order == 1 {
      assert tables.ngrams[0].Keys + {key} == Bump(tables.ngrams[0], key).Keys;
      assert key in tables.ngrams[0] ==> tables.ngrams[0][key] >= 1;
    }
  }

  /** A step that has room keeps every counter within its machine type. */
  lemma BoundedAfter(tables: Tables, unkCount: nat, s: Step, key: Bytes, isNew: bool)
    requires Bounded(tables, unkCount) && HasTable(s) && !Full(tables, unkCount, s, key)
    ensures Bounded(DoAt(tables, s, key, isNew), unkCount + Added(tables, s, key))
  {
  }

  /** What recording the next step needs to know. */
  lemma NextRecord(items: seq<Bytes>, t0: Tables, actions: seq<Action>, k: nat, tables: Tables, unkCount: nat, key: Bytes)
    requires Done(items, t0, actions, k, tables) && k < |actions|
    requires tables.Shape() && actions[k].step.Fits(|items|) && (actions[k].step.ContextOf? ==> k > 0)
    requires key == StepKey(items, actions[k].step)
    requires !Full(tables, unkCount, actions[k].step, key)
    ensures var s := actions[k].step;
      var inserted, isNew := Counted(tables, s, key) == 0, s.ContextOf? && actions[k - 1].inserted;
      var after := DoAt(tables, s, key, isNew);
      && after.Shape() && |after.ngrams[0]| == |tables.ngrams[0]| + Added(tables, s, key)
      && Done(items, t0, actions[k := Action(s, inserted, isNew, true)], k + 1, after)
      && (Bounded(tables, unkCount) ==> Bounded(after, unkCount + Added(tables, s, key)))
  {
    hide Done;
    hide Bounded;
    hide StepKey;
    hide Fresh;
    hide DoAt;
    hide Do;
    hide Undo;
    hide UndoAt;
    hide Live;
    hide Counted;
    hide Full;
    var s := actions[k].step;
    var inserted, isNew := Counted(tables, s, key) == 0, s.ContextOf? && actions[k - 1].inserted;
    NextStep(items, t0, actions, k, tables);
    StepAt(tables, items, s, key, isNew, inserted);
    DoneLive(items, t0, actions, k, tables);
    SizeAfter(tables, s, key, isNew);
    if Bounded(tables, unkCount) {
      BoundedAfter(tables, unkCount, s, key, isNew);
    }
  }

  class Transaction {
    const model: Model
    const items: seq<Bytes>
    var actions: seq<Action>
    var appliedCount: nat
    var unknownAdded: nat

    constructor (model: Model, items: seq<Bytes>)
      ensures this.model == model && this.items == items && appliedCount == 0 && unknownAdded == 0
      ensures Journals(actions, Plan(|items|))
    {
      var journal := PlanActions(|items|);
      this.model, this.items := model, items;
      appliedCount, unknownAdded, actions := 0, 0, journal;
    }

    // What the journal says has been done to the tables t0 and the count unk0.
    ghost predicate Journaled(t0: Tables, unk0: nat)
      reads this, model
    {
      Done(items, t0, actions, appliedCount, model.View()) && model.unkCount == unk0 + unknownAdded
    }

    /** Write the key of an action. */
    method ActionKey(s: Step) returns (key: Bytes)
      requires s.Fits(|items|) && Learnable(items)
      ensures key == StepKey(items, s)
    {
      var window := Window(items, s.order, s.end);
      KeyFits(window);
      key := BuildKey(window, MAX_KEY);
    }

    // What became of step k.
    ghost predicate Met(status: Status, fails: nat -> bool, t0: Tables, unk0: nat, k: nat) {
      if status == Ok then !fails(k) && !StepBlocked(items, t0, unk0, k)
      else if status == Limit then StepBlocked(items, t0, unk0, k)
      else status == OutOfMemory && fails(k) && !StepBlocked(items, t0, unk0, k)
    }

    /** Look the next step up: whether it is new, and whether it can be done. */
    method Check(fails: nat -> bool, ghost t0: Tables, ghost unk0: nat)
      returns (status: Status, key: Bytes, inserted: bool)
      requires Journaled(t0, unk0) && appliedCount < |actions|
      requires model.View().Shape() && |model.ngrams[0]| == |t0.ngrams[0]| + unknownAdded
      modifies `actions
      ensures Journaled(t0, unk0) && |actions| == |old(actions)|
      ensures var step := actions[appliedCount].step;
        && step.Fits(|items|) && (step.ContextOf? ==> appliedCount > 0) && key == StepKey(items, step)
        && inserted == (Counted(model.View(), step, key) == 0)
        && (status == Ok ==> !Full(model.View(), model.unkCount, step, key))
      ensures Met(status, fails, t0, unk0, appliedCount)
    {
      hide Done;
      hide StepBlocked;
      hide StepKey;
      hide Full;
      hide Counted;
      hide Plan;
      hide Learnable;
      hide Added;
      var i := appliedCount;
      var step := actions[i].step;
      NextFits(items, t0, actions, i, model.View());
      key := ActionKey(step);
      var previous, room := model.Room(step, key);
      inserted := previous == 0;
      RoomAt(items, t0, actions, i, model.View(), unk0, unknownAdded);
      if !room {
        return Limit, key, inserted;
      }
      FlagsOnly(items, t0, actions, i, model.View(), actions[i].(inserted := inserted));
      actions := actions[i := actions[i].(inserted := inserted)];
      status := if fails(i) then OutOfMemory else Ok;
    }

    /** Do the next step of the journal, or say why it cannot be done. */
    method ApplyNext(fails: nat -> bool, ghost t0: Tables, ghost unk0: nat) returns (status: Status)
      requires Journaled(t0, unk0) && appliedCount < |actions|
      requires model.View().Shape() && |model.ngrams[0]| == |t0.ngrams[0]| + unknownAdded
      modifies `actions, `appliedCount, `unknownAdded
      modifies model`ngrams, model`contexts, model`totals, model`unkCount
      ensures Journaled(t0, unk0) && |actions| == |old(actions)|
      ensures model.View().Shape() && |model.ngrams[0]| == |t0.ngrams[0]| + unknownAdded
      ensures status == Ok ==> appliedCount == old(appliedCount) + 1
      ensures status != Ok ==> appliedCount == old(appliedCount) && model.View() == old(model.View())
      ensures Met(status, fails, t0, unk0, old(appliedCount))
      ensures Bounded(old(model.View()), old(model.unkCount)) ==> Bounded(model.View(), model.unkCount)
    {
      hide Done;
      hide Bounded;
      hide StepKey;
      hide DoAt;
      hide Full;
      hide Counted;
      hide StepBlocked;
      var key, inserted;
      status, key, inserted := Check(fails, t0, unk0);
      if status != Ok {
        return;
      }
      var i := appliedCount;
      var step := actions[i].step;
      var isNew := step.ContextOf? && actions[i - 1].inserted;
      ghost var bounded := Bounded(model.View(), model.unkCount);
      NextRecord(items, t0, actions, i, model.View(), model.unkCount, key);
      Record(step, key, inserted, isNew, t0, bounded);
    }

    /** Count the occurrence and mark the step done. */
    method Record(step: Step, key: Bytes, inserted: bool, isNew: bool, ghost t0: Tables, ghost bounded: bool)
      requires appliedCount < |actions| && HasTable(step) && model.View().Shape()
      requires DoAt(model.View(), step, key, isNew).Shape()
      requires Done(items, t0, actions[appliedCount := Action(step, inserted, isNew, true)], appliedCount + 1,
                    DoAt(model.View(), step, key, isNew))
      requires inserted <==> Counted(model.View(), step, key) == 0
      requires |DoAt(model.View(), step, key, isNew).ngrams[0]| == |model.ngrams[0]| + Added(model.View(), step, key)
      requires bounded ==> Bounded(DoAt(model.View(), step, key, isNew), model.unkCount + Added(model.View(), step, key))
      modifies `actions, `appliedCount, `unknownAdded
      modifies model`ngrams, model`contexts, model`totals, model`unkCount
      ensures Done(items, t0, actions, appliedCount, model.View())
      ensures |actions| == |old(actions)| && appliedCount == old(appliedCount) + 1
      ensures model.View().Shape() && (bounded ==> Bounded(model.View(), model.unkCount))
      ensures unknownAdded - old(unknownAdded) == |model.ngrams[0]| - |old(model.ngrams[0])|
      ensures unknownAdded - old(unknownAdded) == model.unkCount - old(model.unkCount)
    {
      hide Done;
      hide DoAt;
      hide Bounded;
      model.Add(step, key, isNew);
      if step.Ngram? && step.order == 1 && inserted {
        model.unkCount := model.unkCount + 1;
        unknownAdded := unknownAdded + 1;
      }
      actions := actions[appliedCount := Action(step, inserted, isNew, true)];
      appliedCount := appliedCount + 1;
    }

    /** Do every step, or stop at the first that has no room or no memory. */
    method Apply(fails: nat -> bool, ghost t0: Tables, ghost unk0: nat) returns (status: Status)
      requires Journaled(t0, unk0) && appliedCount == 0 && unknownAdded == 0
      modifies `actions, `appliedCount, `unknownAdded
      modifies model`ngrams, model`contexts, model`totals, model`unkCount
      ensures Journaled(t0, unk0)
      ensures status == Ok ==> t0.Shape() && model.View() == Learn(t0, items, |items|)
      ensures status == Ok ==> model.View().Shape() && |model.ngrams[0]| == |t0.ngrams[0]| + unknownAdded
      ensures Ends(items, t0, unk0, fails, status)
      ensures Bounded(t0, unk0) ==> Bounded(model.View(), model.unkCount)
    {
      hide Done;
      hide Bounded;
      hide StepBlocked;
      StartsFrom(items, t0, actions, model.View());
      DonePlan(items, t0, actions, 0, model.View());
      while appliedCount < |actions|
        invariant Journaled(t0, unk0) && appliedCount <= |actions| == |Plan(|items|)|
        invariant Clear(items, t0, unk0, fails, appliedCount)
        invariant model.View().Shape() && |model.ngrams[0]| == |t0.ngrams[0]| + unknownAdded
        invariant Bounded(t0, unk0) ==> Bounded(model.View(), model.unkCount)
        decreases |actions| - appliedCount
      {
        ghost var k := appliedCount;
        status := ApplyNext(fails, t0, unk0);
        if status != Ok {
          assert StopsAt(items, t0, unk0, fails, k, status);
          return;
        }
      }
      AllDone(items, t0, actions, model.View());
      status := Ok;
    }

    /** Take back the last step that was done. */
    method UndoLast(ghost t0: Tables)
      requires appliedCount > 0 && Done(items, t0, actions, appliedCount, model.View())
      modifies `actions, `appliedCount, model`ngrams, model`contexts, model`totals
      ensures Done(items, t0, actions, appliedCount, model.View()) && appliedCount == old(appliedCount) - 1
    {
      hide Done;
      hide Undo;
      hide UndoAt;
      hide StepKey;
      hide Do;
      hide DoAt;
      hide Fresh;
      ghost var view := model.View();
      LastStep(items, t0, actions, appliedCount, view);
      appliedCount := appliedCount - 1;
      var action := actions[appliedCount];
      if action.applied {
        var key := ActionKey(action.step);
        StepAt(view, items, action.step, key, action.newContinuation, action.inserted);
        model.Remove(action.step, key, action.inserted, action.newContinuation);
        actions := actions[appliedCount := action.(applied := false)];
      }
    }

    /** Restore the model to what it was before the first step. */
    method Rollback(ghost t0: Tables, ghost unk0: nat)
      requires Journaled(t0, unk0)
      modifies `actions, `appliedCount, `unknownAdded
      modifies model`ngrams, model`contexts, model`totals, model`unkCount
      ensures model.View() == t0 && model.unkCount == unk0
    {
      hide Done;
      while appliedCount != 0
        invariant Journaled(t0, unk0) && unknownAdded == old(unknownAdded)
        decreases appliedCount
      {
        UndoLast(t0);
      }
      StartsFrom(items, t0, actions, model.View());
      model.unkCount := model.unkCount - unknownAdded;
      unknownAdded := 0;
    }

    method Commit()
      requires |model.ngrams| == ORDERS
      modifies model`vocabSize
      ensures model.vocabSize == |model.ngrams[0]|
    {
      model.vocabSize := |model.ngrams[0]|;
    }
  }

  lemma DonePlan(items: seq<Bytes>, t0: Tables, actions: seq<Action>, k: nat, tables: Tables)
    requires Done(items, t0, actions, k, tables)
    ensures |actions| == |Plan(|items|)|
  {
  }

  lemma StartsFrom(items: seq<Bytes>, t0: Tables, actions: seq<Action>, tables: Tables)
    requires Done(items, t0, actions, 0, tables)
    ensures t0.Shape() && tables == t0
  {
    LiveShape(t0);
    RunNone(Journal.State(t0, false), items);
  }

  lemma AllDone(items: seq<Bytes>, t0: Tables, actions: seq<Action>, tables: Tables)
    requires Done(items, t0, actions, |actions|, tables)
    ensures t0.Shape() && tables == Learn(t0, items, |items|)
  {
    hide Run;
    hide Learn;
    LiveShape(t0);
    assert Plan(|items|)[..|actions|] == Plan(|items|);
    PlanLearns(Journal.State(t0, false), items, |items|);
  }

  // A context step never comes first.
  lemma {:induction false} ContextsFollow(n: nat, i: nat)
    requires i < |Plan(n)| && Plan(n)[i].ContextOf?
    ensures i > 0
  {
    assert Plan(n) == Plan(n - 1) + StepsAt(n - 1);
    if i < |Plan(n - 1)| {
      ContextsFollow(n - 1, i);
    }
  }

  // ---- Updates ----

  /** Read the input and write its journal, before any table is touched. */
  method Prepare(model: Model, netseq: Bytes, noMemory: bool) returns (status: Status, txn: Transaction?)
    requires Live(model.View())
    ensures (status == Ok) <==> (txn != null)
    ensures txn != null ==> fresh(txn) && txn.model == model && Learnable(txn.items) && netseq == EncodeAll(txn.items)
    ensures txn != null ==> txn.appliedCount == 0 && txn.unknownAdded == 0
    ensures txn != null ==> txn.Journaled(model.View(), model.unkCount)
    ensures status == OutOfMemory ==> noMemory && netseq != []
    ensures status == Ok ==> !(noMemory && netseq != [])
    ensures NotLearnable(netseq) <==> status == Limit || status == BadFormat
    ensures status == BadFormat ==> !Framed(netseq)
    ensures status != BadArgument
  {
    hide Live;
    hide Done;
    var items;
    status, items := Validate(netseq);
    if status != Ok {
      return status, null;
    }
    if items != [] && noMemory {
      EncodeAllFirst(items);
      EncodeNonempty(items[0]);
      return OutOfMemory, null;
    }
    txn := new Transaction(model, items);
    NothingDone(items, model.View(), txn.actions);
  }

  /** The input is well framed and its windows have been learned. */
  ghost predicate Learned(t1: Tables, t2: Tables, netseq: Bytes) {
    exists items :: LearnedItems(t1, t2, netseq, items)
  }

  ghost predicate LearnedItems(t1: Tables, t2: Tables, netseq: Bytes, items: seq<Bytes>) {
    && t1.Shape() && Learnable(items) && netseq == EncodeAll(items) && t2 == Learn(t1, items, |items|)
  }

  /** A learned input adds its histogram, and the contexts still equal a rebuild. */
  lemma LearnedMeans(t1: Tables, t2: Tables, netseq: Bytes)
    requires Learned(t1, t2, netseq)
    ensures t2.Shape() && exists items :: netseq == EncodeAll(items) && Histogram(t1, t2, items, |items|)
    ensures forall items :: netseq == EncodeAll(items) ==> Histogram(t1, t2, items, |items|)
    ensures Consistent(t1) ==> Consistent(t2)
  {
    hide Consistent;
    hide Histogram;
    hide EncodeAll;
    hide Learn;
    var items :| LearnedItems(t1, t2, netseq, items);
    LearnIsHistogram(t1, items, |items|);
    forall other | netseq == EncodeAll(other) ensures other == items {
      EncodeAllInjective(other, items);
    }
    if Consistent(t1) {
      LearnConsistent(t1, items, |items|);
    }
  }

  // Memory for the journal, or for one of the steps, is refused.
  ghost predicate MayFail(noMemory: bool, fails: nat -> bool) {
    noMemory || exists k: nat :: fails(k)
  }

  /** How an update of learnable input ends: without memory for the journal, or as its first step that cannot be done says. */
  ghost predicate Decides(t0: Tables, unk0: nat, netseq: Bytes, noMemory: bool, fails: nat -> bool, status: Status) {
    exists items: seq<Bytes> :: netseq == EncodeAll(items) && Learnable(items) &&
      (if noMemory && netseq != [] then status == OutOfMemory else Ends(items, t0, unk0, fails, status))
  }

  lemma NoJournal(t0: Tables, unk0: nat, netseq: Bytes, noMemory: bool, fails: nat -> bool)
    requires !NotLearnable(netseq) && noMemory && netseq != []
    ensures Decides(t0, unk0, netseq, noMemory, fails, OutOfMemory)
  {
    hide Ends;
    hide EncodeAll;
    hide Learnable;
  }

  // A journal of the input was written and applied.
  lemma AppliedDecides(t0: Tables, unk0: nat, netseq: Bytes, noMemory: bool, fails: nat -> bool, items: seq<Bytes>, status: Status)
    requires netseq == EncodeAll(items) && Learnable(items) && !(noMemory && netseq != [])
    requires Ends(items, t0, unk0, fails, status)
    ensures Decides(t0, unk0, netseq, noMemory, fails, status) && status != BadFormat && status != BadArgument
    ensures status == Limit ==> TooMuch(t0, unk0, netseq)
  {
    hide Ends;
    hide EncodeAll;
    hide Learnable;
    EndsMeans(items, t0, unk0, fails, status);
    if status == Limit {
      TooMuchOf(t0, unk0, netseq, items);
    }
  }

  /** That is one status only. */
  lemma DecidesOnce(t0: Tables, unk0: nat, netseq: Bytes, noMemory: bool, fails: nat -> bool, a: Status, b: Status)
    requires Decides(t0, unk0, netseq, noMemory, fails, a) && Decides(t0, unk0, netseq, noMemory, fails, b)
    ensures a == b
  {
    hide EncodeAll;
    hide Learnable;
    hide Ends;
    var s :| netseq == EncodeAll(s) && (if noMemory && netseq != [] then a == OutOfMemory else Ends(s, t0, unk0, fails, a));
    var t :| netseq == EncodeAll(t) && (if noMemory && netseq != [] then b == OutOfMemory else Ends(t, t0, unk0, fails, b));
    EncodeAllInjective(s, t);
    if !(noMemory && netseq != []) {
      EndsOnce(s, t0, unk0, fails, a, b);
    }
  }

  lemma EndsMeans(items: seq<Bytes>, t0: Tables, unk0: nat, fails: nat -> bool, status: Status)
    requires Ends(items, t0, unk0, fails, status)
    ensures status == Limit ==> NoRoomFor(items, t0, unk0)
    ensures status == OutOfMemory ==> MayFail(false, fails)
    ensures status != BadFormat && status != BadArgument
  {
    hide StepBlocked;
  }

  lemma Decided(t0: Tables, unk0: nat, netseq: Bytes, noMemory: bool, fails: nat -> bool, status: Status)
    ensures Decides(t0, unk0, netseq, noMemory, fails, status) && status == OutOfMemory ==> MayFail(noMemory, fails)
    ensures Decides(t0, unk0, netseq, noMemory, fails, status) ==> status != BadFormat && status != BadArgument
  {
    hide Ends;
    hide EncodeAll;
    hide Learnable;
    if Decides(t0, unk0, netseq, noMemory, fails, status) && !(noMemory && netseq != []) {
      var items :| netseq == EncodeAll(items) && Ends(items, t0, unk0, fails, status);
      EndsMeans(items, t0, unk0, fails, status);
    }
  }

  // Why an update may be refused for lack of room.
  ghost predicate TooMuch(t0: Tables, unk0: nat, netseq: Bytes) {
    NotLearnable(netseq) || exists items: seq<Bytes> :: netseq == EncodeAll(items) && NoRoomFor(items, t0, unk0)
  }

  lemma TooMuchOf(t0: Tables, unk0: nat, netseq: Bytes, items: seq<Bytes>)
    requires NotLearnable(netseq) || (netseq == EncodeAll(items) && NoRoomFor(items, t0, unk0))
    ensures TooMuch(t0, unk0, netseq)
  {
    hide EncodeAll;
  }

  // What an update did to one model, as the values before and after.
  ghost predicate Updated(t0: Tables, unk0: nat, t: Tables, unk: nat, netseq: Bytes) {
    Learned(t0, t, netseq) && t0.Shape() && t.Shape() && unk + |t0.ngrams[0]| == unk0 + |t.ngrams[0]|
  }

  /** A successful update, written out: for every order from one to four each count grows by the number of positions
      at which its key is a window of the input, the total by the number of windows, and the unknown count by the
      number of stages that are new. */
  lemma UpdatedMeans(t0: Tables, unk0: nat, t: Tables, unk: nat, items: seq<Bytes>, order: nat, key: Bytes)
    requires Updated(t0, unk0, t, unk, EncodeAll(items)) && 1 <= order <= 4
    ensures |t0.ngrams| == |t.ngrams| == |t0.totals| == |t.totals| == 4
    ensures Count(t.ngrams[order - 1], key) == Count(t0.ngrams[order - 1], key) + |EndsOf(items, |items|, order, key)|
    ensures t.totals[order - 1] == t0.totals[order - 1] + if |items| >= order then |items| + 1 - order else 0
    ensures unk - unk0 == |t.ngrams[0]| - |t0.ngrams[0]|
    ensures forall i :: 0 <= i < |items| ==> |items[i]| <= 1023
  {
    hide EncodeAll;
    hide Learn;
    hide EndsOf;
    LearnedMeans(t0, t, EncodeAll(items));
    OccurrencesAre(items, |items|, order, key);
    var o := order - 1;
    assert Histogram(t0, t, items, |items|);
    assert Count(t.ngrams[o], key) == Count(t0.ngrams[o], key) + Occurrences(items, |items|, o + 1, key);
    var other :| LearnedItems(t0, t, EncodeAll(items), other);
    EncodeAllInjective(items, other);
  }

  // Apply the journal, or roll it back.
  method ApplyOne(txn: Transaction, fails: nat -> bool, ghost t0: Tables, ghost unk0: nat) returns (status: Status)
    requires txn.Journaled(t0, unk0) && txn.appliedCount == 0 && txn.unknownAdded == 0
    modifies txn
    modifies txn.model`ngrams, txn.model`contexts, txn.model`totals, txn.model`unkCount
    ensures status == Ok ==> Applied(t0, unk0, txn.model.View(), txn.model.unkCount, txn.items)
    ensures status != Ok ==> txn.model.View() == t0 && txn.model.unkCount == unk0
    ensures Bounded(t0, unk0) ==> Bounded(txn.model.View(), txn.model.unkCount)
    ensures Ends(txn.items, t0, unk0, fails, status)
  {
    hide Done;
    hide Bounded;
    hide Ends;
    hide Learn;
    status := txn.Apply(fails, t0, unk0);
    if status != Ok {
      txn.Rollback(t0, unk0);
    }
  }

  /** Learn a sequence, or leave the model as it was. */
  method UpdateNetseq(model: Model, netseq: Bytes, noMemory: bool, fails: nat -> bool) returns (status: Status)
    requires model.Valid()
    modifies model
    ensures model.Valid() && model.alpha == old(model.alpha) && model.discount == old(model.discount)
    ensures status == Ok ==> Updated(old(model.View()), old(model.unkCount), model.View(), model.unkCount, netseq)
    ensures status != Ok ==> model.View() == old(model.View()) && model.unkCount == old(model.unkCount)
    ensures status != Ok ==> model.vocabSize == old(model.vocabSize)
    ensures model.oom == (old(model.oom) || status == OutOfMemory)
    ensures Bounded(old(model.View()), old(model.unkCount)) ==> Bounded(model.View(), model.unkCount)
    ensures status == BadFormat ==> !Framed(netseq)
    ensures status == Limit ==> TooMuch(old(model.View()), old(model.unkCount), netseq)
    ensures if NotLearnable(netseq) then status == Limit || status == BadFormat
      else Decides(old(model.View()), old(model.unkCount), netseq, noMemory, fails, status)
  {
    hide Done;
    hide Consistent;
    hide Live;
    hide Learn;
    hide Ends;
    hide Framed;
    hide Learnable;
    hide EncodeAll;
    hide NotLearnable;
    hide NoRoomFor;
    hide TooMuch;
    hide Decides;
    hide Updated;
    hide Applied;
    ghost var t0, unk0 := model.View(), model.unkCount;
    ConsistentLive(t0);
    var txn;
    status, txn := Prepare(model, netseq, noMemory);
    if txn == null {
      if status == Limit {
        TooMuchOf(t0, unk0, netseq, []);
      } else if status == OutOfMemory {
        NoJournal(t0, unk0, netseq, noMemory, fails);
      }
      model.oom := model.oom || status == OutOfMemory;
      return;
    }
    status := ApplyOne(txn, fails, t0, unk0);
    AppliedDecides(t0, unk0, netseq, noMemory, fails, txn.items, status);
    if status != Ok {
      model.oom := model.oom || status == OutOfMemory;
      return;
    }
    Consistently(t0, unk0, model.View(), model.unkCount, netseq, txn.items);
    txn.Commit();
  }

  twostate predicate Untouched(model: Model)
    reads model
  {
    && model.View() == old(model.View()) && model.unkCount == old(model.unkCount)
    && model.vocabSize == old(model.vocabSize)
  }

  // Apply the journals in order; if one fails, roll both back, the later one first.
  method ApplyBoth(rawTxn: Transaction, typeTxn: Transaction, failsRaw: nat -> bool, failsType: nat -> bool,
                   ghost t0: Tables, ghost unk0: nat, ghost t1: Tables, ghost unk1: nat)
    returns (status: Status, typeAttempted: bool)
    requires rawTxn != typeTxn && rawTxn.model != typeTxn.model
    requires rawTxn.Journaled(t0, unk0) && rawTxn.appliedCount == 0 && rawTxn.unknownAdded == 0
    requires typeTxn.Journaled(t1, unk1) && typeTxn.appliedCount == 0 && typeTxn.unknownAdded == 0
    requires Consistent(t0) && Consistent(t1)
    modifies rawTxn, typeTxn
    modifies rawTxn.model`ngrams, rawTxn.model`contexts, rawTxn.model`totals, rawTxn.model`unkCount
    modifies typeTxn.model`ngrams, typeTxn.model`contexts, typeTxn.model`totals, typeTxn.model`unkCount
    ensures status == Ok ==> Applied(t0, unk0, rawTxn.model.View(), rawTxn.model.unkCount, rawTxn.items)
    ensures status == Ok ==> Applied(t1, unk1, typeTxn.model.View(), typeTxn.model.unkCount, typeTxn.items)
    ensures status != Ok ==> rawTxn.model.View() == t0 && rawTxn.model.unkCount == unk0
    ensures status != Ok ==> typeTxn.model.View() == t1 && typeTxn.model.unkCount == unk1
    ensures Ends(rawTxn.items, t0, unk0, failsRaw, if typeAttempted then Ok else status)
    ensures if typeAttempted then Ends(typeTxn.items, t1, unk1, failsType, status) else status != Ok
  {
    hide Done;
    hide Consistent;
    hide Learn;
    hide Ends;
    hide EncodeAll;
    status := rawTxn.Apply(failsRaw, t0, unk0);
    typeAttempted := status == Ok;
    if typeAttempted {
      status := typeTxn.Apply(failsType, t1, unk1);
    }
    if status != Ok {
      typeTxn.Rollback(t1, unk1);
      rawTxn.Rollback(t0, unk0);
    }
  }

  // Every step of the plan of the items has been applied.
  ghost predicate Applied(t0: Tables, unk0: nat, t: Tables, unk: nat, items: seq<Bytes>) {
    && t0.Shape() && t == Learn(t0, items, |items|)
    && t.Shape() && unk + |t0.ngrams[0]| == unk0 + |t.ngrams[0]|
  }

  // The parameters of a model, which learning never touches, are as before.
  twostate predicate SameParameters(model: Model)
    reads model
  {
    model.alpha == old(model.alpha) && model.discount == old(model.discount)
  }

  // What follows a failed update of one of the models.
  method Exhausted(model: Model, status: Status)
    modifies model`oom
    ensures model.oom == (old(model.oom) || status == OutOfMemory)
  {
    model.oom := model.oom || status == OutOfMemory;
  }

  /** Learn a command in the raw model and, if there is one, in the type model: both or neither. */
  method UpdatePair(raw: Model, rawNetseq: Bytes, typed: Model?, typeNetseq: Bytes,
                    noMemory: (bool, bool), failsRaw: nat -> bool, failsType: nat -> bool)
    returns (status: Status)
    requires raw.Valid() && (typed != null ==> typed != raw && typed.Valid())
    modifies raw, typed
    ensures raw.Valid() && SameParameters(raw)
    ensures typed != null ==> typed.Valid() && SameParameters(typed)
    ensures status == Ok ==> Updated(old(raw.View()), old(raw.unkCount), raw.View(), raw.unkCount, rawNetseq)
    ensures status == Ok && typed != null ==>
      Updated(old(typed.View()), old(typed.unkCount), typed.View(), typed.unkCount, typeNetseq)
    ensures status == Ok && typed != null ==> SameLength(rawNetseq, typeNetseq)
    ensures status != Ok ==> Untouched(raw) && (typed != null ==> Untouched(typed))
    ensures status != OutOfMemory ==> raw.oom == old(raw.oom) && (typed != null ==> typed.oom == old(typed.oom))
    ensures status == OutOfMemory ==> raw.oom || (typed != null && typed.oom)
    ensures status == BadFormat ==> !Framed(rawNetseq) || (typed != null && !SameLength(rawNetseq, typeNetseq))
    ensures status == Limit ==>
      (TooMuch(old(raw.View()), old(raw.unkCount), rawNetseq)
        || (typed != null && TooMuch(old(typed.View()), old(typed.unkCount), typeNetseq)))
    ensures status == OutOfMemory ==> (MayFail(noMemory.0, failsRaw) || (typed != null && MayFail(noMemory.1, failsType)))
    ensures typed == null && !NotLearnable(rawNetseq) ==>
      Decides(old(raw.View()), old(raw.unkCount), rawNetseq, noMemory.0, failsRaw, status)
    ensures status != BadArgument
  {
    hide Done;
    hide Consistent;
    hide Live;
    hide Applied;
    hide Updated;
    hide SameLength;
    hide Ends;
    hide EncodeAll;
    hide NotLearnable;
    hide NoRoomFor;
    hide TooMuch;
    hide Learnable;
    hide Learn;
    hide Framed;
    if typed == null {
      status := UpdateNetseq(raw, rawNetseq, noMemory.0, failsRaw);
      Decided(old(raw.View()), old(raw.unkCount), rawNetseq, noMemory.0, failsRaw, status);
    } else {
      status := UpdateTwo(raw, rawNetseq, typed, typeNetseq, noMemory, failsRaw, failsType);
    }
  }

  // Prepare both journals, before any table is touched.
  method PrepareBoth(raw: Model, rawNetseq: Bytes, typed: Model, typeNetseq: Bytes, noMemory: (bool, bool))
    returns (status: Status, rawTxn: Transaction?, typeTxn: Transaction?)
    requires Live(raw.View()) && Live(typed.View())
    modifies raw`oom, typed`oom
    ensures status == Ok ==> rawTxn != null && Prepared(raw, rawNetseq, rawTxn)
    ensures status == Ok ==> typeTxn != null && Prepared(typed, typeNetseq, typeTxn) && typeTxn != rawTxn
    ensures status == Ok ==> fresh(rawTxn) && fresh(typeTxn) && SameLength(rawNetseq, typeNetseq)
    ensures status != OutOfMemory ==> raw.oom == old(raw.oom) && typed.oom == old(typed.oom)
    ensures status == OutOfMemory ==> (raw.oom || typed.oom) && (noMemory.0 || noMemory.1)
    ensures status == BadFormat ==> !SameLength(rawNetseq, typeNetseq)
    ensures status == Limit ==> NotLearnable(rawNetseq) || NotLearnable(typeNetseq)
    ensures status != BadArgument
  {
    hide Done;
    hide Live;
    hide SameLength;
    hide EncodeAll;
    hide Learnable;
    hide NotLearnable;
    hide Framed;
    status, rawTxn, typeTxn := Ok, null, null;
    if SameLength(rawNetseq, typeNetseq) {
      BothFramed(rawNetseq, typeNetseq);
    }
    status, rawTxn := Prepare(raw, rawNetseq, noMemory.0);
    if rawTxn == null {
      Exhausted(raw, status);
      return;
    }
    status, typeTxn := Prepare(typed, typeNetseq, noMemory.1);
    if typeTxn == null {
      Exhausted(typed, status);
      return;
    }
    CountsAgree(rawNetseq, rawTxn.items, typeNetseq, typeTxn.items);
    if |rawTxn.items| != |typeTxn.items| {
      status := BadFormat;
    }
  }

  // A journal of the input, of which nothing has been applied.
  ghost predicate Prepared(model: Model, netseq: Bytes, txn: Transaction)
    reads model, txn
  {
    && txn.model == model && Learnable(txn.items) && netseq == EncodeAll(txn.items)
    && txn.appliedCount == 0 && txn.unknownAdded == 0 && txn.Journaled(model.View(), model.unkCount)
  }

  method UpdateTwo(raw: Model, rawNetseq: Bytes, typed: Model, typeNetseq: Bytes,
                   noMemory: (bool, bool), failsRaw: nat -> bool, failsType: nat -> bool)
    returns (status: Status)
    requires raw.Valid() && typed != raw && typed.Valid()
    modifies raw, typed
    ensures raw.Valid() && SameParameters(raw) && typed.Valid() && SameParameters(typed)
    ensures status == Ok ==> Updated(old(raw.View()), old(raw.unkCount), raw.View(), raw.unkCount, rawNetseq)
    ensures status == Ok ==> Updated(old(typed.View()), old(typed.unkCount), typed.View(), typed.unkCount, typeNetseq)
    ensures status == Ok ==> SameLength(rawNetseq, typeNetseq)
    ensures status != Ok ==> Untouched(raw) && Untouched(typed)
    ensures status != OutOfMemory ==> raw.oom == old(raw.oom) && typed.oom == old(typed.oom)
    ensures status == OutOfMemory ==> raw.oom || typed.oom
    ensures status == BadFormat ==> !SameLength(rawNetseq, typeNetseq)
    ensures status == Limit ==>
      (TooMuch(old(raw.View()), old(raw.unkCount), rawNetseq) || TooMuch(old(typed.View()), old(typed.unkCount), typeNetseq))
    ensures status == OutOfMemory ==> MayFail(noMemory.0, failsRaw) || MayFail(noMemory.1, failsType)
    ensures status != BadArgument
  {
    hide Done;
    hide Consistent;
    hide Live;
    hide Applied;
    hide Updated;
    hide SameLength;
    hide EncodeAll;
    hide Learnable;
    hide Learn;
    hide NotLearnable;
    hide NoRoomFor;
    hide Ends;
    hide TooMuch;
    ghost var t0, unk0, t1, unk1 := raw.View(), raw.unkCount, typed.View(), typed.unkCount;
    ConsistentLive(t0);
    ConsistentLive(t1);
    var rawTxn, typeTxn, typeAttempted;
    status, rawTxn, typeTxn := PrepareBoth(raw, rawNetseq, typed, typeNetseq, noMemory);
    if status != Ok {
      if status == Limit {
        LimitOfBoth(t0, unk0, rawNetseq, [], t1, unk1, typeNetseq, []);
      }
      return;
    }
    status, typeAttempted := ApplyBoth(rawTxn, typeTxn, failsRaw, failsType, t0, unk0, t1, unk1);
    if typeAttempted {
      EndsMeans(typeTxn.items, t1, unk1, failsType, status);
    } else {
      EndsMeans(rawTxn.items, t0, unk0, failsRaw, status);
    }
    if status != Ok {
      if status == Limit {
        LimitOfBoth(t0, unk0, rawNetseq, rawTxn.items, t1, unk1, typeNetseq, typeTxn.items);
      }
      Exhausted(if typeAttempted then typed else raw, status);
      return;
    }
    Consistently(t1, unk1, typed.View(), typed.unkCount, typeNetseq, typeTxn.items);
    Consistently(t0, unk0, raw.View(), raw.unkCount, rawNetseq, rawTxn.items);
    typeTxn.Commit();
    rawTxn.Commit();
  }

  lemma LimitOfBoth(t0: Tables, unk0: nat, a: Bytes, s: seq<Bytes>, t1: Tables, unk1: nat, b: Bytes, t: seq<Bytes>)
    requires NotLearnable(a) || NotLearnable(b)
      || (a == EncodeAll(s) && b == EncodeAll(t) && (NoRoomFor(s, t0, unk0) || NoRoomFor(t, t1, unk1)))
    ensures TooMuch(t0, unk0, a) || TooMuch(t1, unk1, b)
  {
    hide EncodeAll;
    hide NoRoomFor;
    hide NotLearnable;
  }

  // Both inputs are well framed, with as many stages.
  ghost predicate SameLength(a: Bytes, b: Bytes) {
    exists s: seq<Bytes>, t: seq<Bytes> :: a == EncodeAll(s) && b == EncodeAll(t) && |s| == |t|
  }

  lemma BothFramed(a: Bytes, b: Bytes)
    requires SameLength(a, b)
    ensures Framed(a) && Framed(b)
  {
  }

  lemma CountsAgree(a: Bytes, s: seq<Bytes>, b: Bytes, t: seq<Bytes>)
    requires a == EncodeAll(s) && b == EncodeAll(t)
    ensures SameLength(a, b) <==> |s| == |t|
  {
    hide EncodeAll;
    if SameLength(a, b) {
      var u: seq<Bytes>, v: seq<Bytes> :| a == EncodeAll(u) && b == EncodeAll(v) && |u| == |v|;
      EncodeAllInjective(s, u);
      EncodeAllInjective(t, v);
    }
  }

  lemma Consistently(t0: Tables, unk0: nat, t: Tables, unk: nat, netseq: Bytes, items: seq<Bytes>)
    requires Consistent(t0) && Learnable(items) && netseq == EncodeAll(items) && Applied(t0, unk0, t, unk, items)
    ensures Consistent(t) && Updated(t0, unk0, t, unk, netseq) && t.Shape()
  {
    hide Consistent;
    hide EncodeAll;
    hide Learn;
    LearnConsistent(t0, items, |items|);
    assert LearnedItems(t0, t, netseq, items);
  }
}
