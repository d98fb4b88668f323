/** Saving a model and loading it back.

    A saved model is a header (smoothing parameters and six counters) and a body of
    records.  The parameters are reals; the counters and the body are octets. */
module Persistence {
  import opened Bytes
  import opened NgramStore
  import opened Records
  import opened ModelHeader
  import opened Tally
  import opened ModelUpdate
  import opened Rebuild

  datatype Saved = Saved(alpha: real, discount: real, sizes: Bytes, body: Bytes)

  const HEADER_SIZES := 6

  ghost function Tables4(records: seq<Rec>): seq<Table> {
    [TallyOf(records, 1), TallyOf(records, 2), TallyOf(records, 3), TallyOf(records, 4)]
  }

  ghost function Totals4(records: seq<Rec>): seq<nat> {
    [TotalOf(records, 1), TotalOf(records, 2), TotalOf(records, 3), TotalOf(records, 4)]
  }

  // ---- Saving ----

  // The records spell these tables.
  ghost predicate Spelled(records: seq<Rec>, ngrams: seq<Table>) {
    |ngrams| == ORDERS && AllValid(records) && Tables4(records) == ngrams
  }

  /** What a file that was saved from a model holds. */
  ghost predicate SavedAs(t: Tables, vocabSize: nat, unkCount: nat, alpha: real, discount: real, s: Saved) {
    && s.alpha == alpha && s.discount == discount && t.Shape()
    && s.sizes == SizeLine(t.totals + [vocabSize, unkCount])
    && exists records :: s.body == WriteAll(records) && Spelled(records, t.ngrams)
  }

  // The records written so far for one table, after those of the earlier tables.
  ghost predicate Listed(before: seq<Rec>, records: seq<Rec>, m: Table, order: nat, seen: set<Bytes>) {
    && seen <= m.Keys && AllValid(records)
    && TallyOf(records, order) == Restrict(m, seen)
    && forall o :: 1 <= o <= ORDERS && o != order ==> TallyOf(records, o) == TallyOf(before, o)
  }

  lemma ListOne(before: seq<Rec>, records: seq<Rec>, m: Table, order: nat, seen: set<Bytes>, key: Bytes)
    requires Listed(before, records, m, order, seen) && key in m && key !in seen
    requires ValidRec(Rec(order, key, m[key]))
    ensures Listed(before, records + [Rec(order, key, m[key])], m, order, seen + {key})
  {
    hide ValidRec;
    var r := Rec(order, key, m[key]);
    forall o ensures TallyOf(records + [r], o) ==
      if r.kind == o then AddCount(TallyOf(records, o), key, m[key]) else TallyOf(records, o)
    {
      TallyMore(records, r, o);
    }
    hide TallyOf;
    assert AddCount(Restrict(m, seen), key, m[key]) == Restrict(m, seen + {key});
  }

  /** Write the records of one table, in any order. */
  method SaveTable(m: Table, order: nat, ghost before: seq<Rec>) returns (body: Bytes, ghost records: seq<Rec>)
    requires 1 <= order <= ORDERS && WellKeyed(m, order) && forall key :: key in m ==> m[key] <= INT64_MAX
    requires AllValid(before) && TallyOf(before, order) == map[]
    ensures WriteAll(before) + body == WriteAll(records)
    ensures AllValid(records) && TallyOf(records, order) == m
    ensures forall o :: 1 <= o <= ORDERS && o != order ==> TallyOf(records, o) == TallyOf(before, o)
  {
    hide KeyOf;
    hide WriteAll;
    hide Write;
    hide Listed;
    hide TallyOf;
    hide AllValid;
    hide ValidRec;
    body, records := [], before;
    var remaining := m.Keys;
    assert m.Keys - remaining == {};
    NothingListed(before, m, order);
    while remaining != {}
      invariant remaining <= m.Keys && Listed(before, records, m, order, m.Keys - remaining)
      invariant WriteAll(before) + body == WriteAll(records)
      decreases |remaining|
    {
      var key :| key in remaining;
      var r := Rec(order, key, m[key]);
      EntryValid(m, order, key);
      ListOne(before, records, m, order, m.Keys - remaining, key);
      MoreSeen(m.Keys, remaining, key);
      WriteMore(before, body, records, r);
      body, records, remaining := body + Write(r), records + [r], remaining - {key};
    }
    assert m.Keys - remaining == m.Keys;
    AllListed(before, records, m, order);
  }

  lemma MoreSeen(keys: set<Bytes>, remaining: set<Bytes>, key: Bytes)
    requires key in remaining && remaining <= keys
    ensures (keys - remaining) + {key} == keys - (remaining - {key}) && remaining - {key} <= keys
  {
  }

  lemma WriteMore(before: seq<Rec>, body: Bytes, records: seq<Rec>, r: Rec)
    requires WriteAll(before) + body == WriteAll(records)
    ensures WriteAll(before) + (body + Write(r)) == WriteAll(records + [r])
  {
    WriteAllSnoc(records, r);
  }

  lemma EntryValid(m: Table, order: nat, key: Bytes)
    requires 1 <= order <= ORDERS && WellKeyed(m, order) && key in m && m[key] <= INT64_MAX
    ensures ValidRec(Rec(order, key, m[key]))
  {
  }

  lemma NothingListed(before: seq<Rec>, m: Table, order: nat)
    requires AllValid(before) && TallyOf(before, order) == map[]
    ensures Listed(before, before, m, order, {})
  {
    assert Restrict(m, {}) == map[];
  }

  lemma AllListed(before: seq<Rec>, records: seq<Rec>, m: Table, order: nat)
    requires Listed(before, records, m, order, m.Keys)
    ensures AllValid(records) && TallyOf(records, order) == m
    ensures forall o :: 1 <= o <= ORDERS && o != order ==> TallyOf(records, o) == TallyOf(before, o)
  {
    assert Restrict(m, m.Keys) == m;
  }

  /** Save a model; the order of its records is not determined. */
  method Save(model: Model) returns (s: Saved)
    requires model.Valid() && Bounded(model.View(), model.unkCount)
    ensures SavedAs(model.View(), model.vocabSize, model.unkCount, model.alpha, model.discount, s)
  {
    hide KeyOf;
    hide TallyOf;
    hide WriteAll;
    hide Derived;
    hide AllValid;
    NoRecords();
    ghost var none: seq<Rec> := [];
    var ngrams := model.ngrams;
    var body1, r1 := SaveTable(ngrams[0], 1, none);
    var body2, r2 := SaveTable(ngrams[1], 2, r1);
    var body3, r3 := SaveTable(ngrams[2], 3, r2);
    var body4, r4 := SaveTable(ngrams[3], 4, r3);
    var sizes := SizeLine(model.totals + [model.vocabSize, model.unkCount]);
    s := Saved(model.alpha, model.discount, sizes, body1 + body2 + body3 + body4);
    assert WriteAll(none) + s.body == WriteAll(none) + body1 + body2 + body3 + body4;
    assert Tables4(r4) == ngrams;
    assert s.body == WriteAll(r4) && Spelled(r4, ngrams);
  }

  lemma NoRecords()
    ensures AllValid([]) && WriteAll([]) == []
    ensures forall o: nat :: TallyOf([], o) == map[] && TotalOf([], o) == 0
  {
  }

  // ---- Loading ----

  // Nothing in the records overflows a counter, also not in the derived tables.
  ghost predicate RecordsFit(records: seq<Rec>) {
    && AllValid(records)
    && (forall o, key :: 1 <= o <= ORDERS ==> Count(TallyOf(records, o), key) <= INT64_MAX)
    && (forall o :: 1 <= o <= ORDERS ==> TotalOf(records, o) <= SIZE_MAX)
    && TablesKeyed(Tables4(records)) && !AnyTooBig(Tables4(records))
  }

  ghost predicate TablesKeyed(ngrams: seq<Table>) {
    |ngrams| == ORDERS && forall o :: 0 <= o < ORDERS ==> WellKeyed(ngrams[o], o + 1)
  }

  ghost predicate HeaderMatches(values: seq<nat>, records: seq<Rec>) {
    && |values| == HEADER_SIZES
    && values[..ORDERS] == Totals4(records)
    && values[4] == |TallyOf(records, 1)|
  }

  predicate ParametersValid(s: Saved) {
    s.alpha > 0.0 && 0.0 < s.discount <= 1.0
  }

  /** The file means a model: header and body are well formed, agree and fit the counters. */
  ghost predicate Acceptable(s: Saved) {
    WellFormed(s) && RecordsFit(ReadAll(s.body).records)
  }

  // Header and body can be read, and the header states what the records add up to.
  ghost predicate WellFormed(s: Saved) {
    && ParametersValid(s) && SizesAt(s.sizes, HEADER_SIZES).Sizes? && ReadAll(s.body).Read?
    && HeaderMatches(SizesAt(s.sizes, HEADER_SIZES).values, ReadAll(s.body).records)
  }

  // If the body can be read, some sum of its counts exceeds its counter.
  ghost predicate Overflows(body: Bytes) {
    ReadAll(body).Read? ==> !RecordsFit(ReadAll(body).records)
  }

  /** The tables and the unknown count that an acceptable file means. */
  ghost predicate LoadedAs(s: Saved, t: Tables, unkCount: nat) {
    && Acceptable(s) && t.Shape() && t.ngrams == Tables4(ReadAll(s.body).records)
    && unkCount == SizesAt(s.sizes, HEADER_SIZES).values[5] && Consistent(t)
  }

  // What has been loaded of a body.
  ghost predicate Loading(body: Bytes, loaded: seq<Rec>, rest: Bytes, ngrams: seq<Table>, totals: seq<nat>) {
    && AllValid(loaded) && ReadAll(body) == PrependAll(loaded, ReadAll(rest))
    && ngrams == Tables4(loaded) && totals == Totals4(loaded)
    && (forall o :: 1 <= o <= ORDERS ==> TotalOf(loaded, o) <= SIZE_MAX)
    && (forall o, key :: 1 <= o <= ORDERS ==> Count(TallyOf(loaded, o), key) <= INT64_MAX)
  }

  lemma NothingLoaded(body: Bytes)
    ensures Loading(body, [], body, [map[], map[], map[], map[]], [0, 0, 0, 0])
  {
    hide ReadAll;
    hide TallyOf;
    hide TotalOf;
    NoRecords();
    assert Tables4([]) == [map[], map[], map[], map[]];
    if ReadAll(body).Read? {
      assert [] + ReadAll(body).records == ReadAll(body).records;
    }
  }

  lemma BadRecord(body: Bytes, loaded: seq<Rec>, rest: Bytes, ngrams: seq<Table>, totals: seq<nat>)
    requires Loading(body, loaded, rest, ngrams, totals) && rest != []
    requires ReadFields(rest).Bad? || !ValidRec(ReadFields(rest).r)
    ensures ReadAll(body).Malformed_?
  {
    hide ReadFields;
    hide ValidRec;
  }

  lemma NextRecord(body: Bytes, loaded: seq<Rec>, rest: Bytes, ngrams: seq<Table>, totals: seq<nat>)
    requires Loading(body, loaded, rest, ngrams, totals) && rest != []
    requires ReadFields(rest).Got? && ValidRec(ReadFields(rest).r)
    ensures ReadAll(body) == PrependAll(loaded + [ReadFields(rest).r], ReadAll(ReadFields(rest).rest))
  {
    hide ReadFields;
    hide ValidRec;
    PrependOneMore(loaded, ReadFields(rest).r, ReadAll(ReadFields(rest).rest));
  }

  /** One record more is loaded, or it shows that the file does not fit. */
  lemma LoadOne(body: Bytes, loaded: seq<Rec>, rest: Bytes, ngrams: seq<Table>, totals: seq<nat>)
    requires Loading(body, loaded, rest, ngrams, totals) && rest != []
    requires ReadFields(rest).Got? && ValidRec(ReadFields(rest).r)
    ensures |ngrams| == ORDERS && |totals| == ORDERS
    ensures var r, o := ReadFields(rest).r, ReadFields(rest).r.kind - 1;
      && (if Count(ngrams[o], r.key) + r.count > INT64_MAX || totals[o] + r.count > SIZE_MAX
         then !(ReadAll(body).Read? && RecordsFit(ReadAll(body).records))
         else Loading(body, loaded + [r], ReadFields(rest).rest,
                      ngrams[o := AddCount(ngrams[o], r.key, r.count)], totals[o := totals[o] + r.count]))
  {
    hide ReadFields;
    hide ReadAll;
    hide KeyOf;
    hide TallyOf;
    hide TotalOf;
    var r, tail := ReadFields(rest).r, ReadFields(rest).rest;
    var o := r.kind - 1;
    NextRecord(body, loaded, rest, ngrams, totals);
    TallyMore(loaded, r, r.kind);
    if Count(ngrams[o], r.key) + r.count > INT64_MAX || totals[o] + r.count > SIZE_MAX {
      if ReadAll(tail).Read? {
        TallyGrows(loaded + [r], ReadAll(tail).records, r.kind, r.key);
      }
    } else {
      LoadedMore(loaded, r, ngrams, totals);
    }
  }

  lemma LoadedMore(loaded: seq<Rec>, r: Rec, ngrams: seq<Table>, totals: seq<nat>)
    requires 1 <= r.kind <= ORDERS && ngrams == Tables4(loaded) && totals == Totals4(loaded)
    requires forall o :: 1 <= o <= ORDERS ==> TotalOf(loaded, o) <= SIZE_MAX
    requires forall o, key :: 1 <= o <= ORDERS ==> Count(TallyOf(loaded, o), key) <= INT64_MAX
    requires Count(ngrams[r.kind - 1], r.key) + r.count <= INT64_MAX && totals[r.kind - 1] + r.count <= SIZE_MAX
    ensures var o := r.kind - 1;
      && ngrams[o := AddCount(ngrams[o], r.key, r.count)] == Tables4(loaded + [r])
      && totals[o := totals[o] + r.count] == Totals4(loaded + [r])
    ensures forall o :: 1 <= o <= ORDERS ==> TotalOf(loaded + [r], o) <= SIZE_MAX
    ensures forall o, key :: 1 <= o <= ORDERS ==> Count(TallyOf(loaded + [r], o), key) <= INT64_MAX
  {
    hide TallyOf;
    hide TotalOf;
    var o := r.kind - 1;
    TallyMore(loaded, r, 1);
    TallyMore(loaded, r, 2);
    TallyMore(loaded, r, 3);
    TallyMore(loaded, r, 4);
    assert ngrams[o] == TallyOf(loaded, r.kind) && totals[o] == TotalOf(loaded, r.kind);
    forall k | 1 <= k <= ORDERS ensures TotalOf(loaded + [r], k) <= SIZE_MAX {
      TallyMore(loaded, r, k);
      assert TotalOf(loaded, k) <= SIZE_MAX;
    }
    forall k, key | 1 <= k <= ORDERS ensures Count(TallyOf(loaded + [r], k), key) <= INT64_MAX {
      TallyMore(loaded, r, k);
      assert Count(TallyOf(loaded, k), key) <= INT64_MAX;
    }
  }

  method AddLoaded(model: Model, r: Rec)
    requires |model.ngrams| == ORDERS && |model.totals| == ORDERS && 1 <= r.kind <= ORDERS
    modifies model`ngrams, model`totals
    ensures var o := r.kind - 1;
      && model.ngrams == old(model.ngrams)[o := AddCount(old(model.ngrams)[o], r.key, r.count)]
      && model.totals == old(model.totals)[o := old(model.totals)[o] + r.count]
  {
    var o := r.kind - 1;
    model.ngrams := model.ngrams[o := AddCount(model.ngrams[o], r.key, r.count)];
    model.totals := model.totals[o := model.totals[o] + r.count];
  }

  /** Add the records of a body to an empty model. */
  method LoadBody(model: Model, body: Bytes, fails: Bytes -> bool) returns (status: Status, ghost loaded: seq<Rec>)
    requires model.ngrams == [map[], map[], map[], map[]] && model.totals == [0, 0, 0, 0]
    modifies model`ngrams, model`totals
    ensures status == Ok ==> Loading(body, loaded, [], model.ngrams, model.totals)
    ensures status == BadFormat ==> !ReadAll(body).Read?
    ensures status == Limit ==> Overflows(body)
    ensures status != BadArgument
    ensures status == OutOfMemory ==> exists rest :: fails(rest)
  {
    hide Loading;
    hide RecordsFit;
    hide ReadAll;
    hide ReadFields;
    hide KeyOf;
    loaded := [];
    NothingLoaded(body);
    var rest := body;
    while rest != []
      invariant Loading(body, loaded, rest, model.ngrams, model.totals)
      decreases |rest|
    {
      var one := ReadFields(rest);
      if one.Bad? {
        BadRecord(body, loaded, rest, model.ngrams, model.totals);
        return BadFormat, loaded;
      }
      var r := one.r;
      var valid := false;
      if 1 <= r.kind <= ORDERS && 1 <= r.count <= INT64_MAX {
        valid := KeyValid(r.key, r.kind);
      }
      if !valid {
        BadRecord(body, loaded, rest, model.ngrams, model.totals);
        return BadFormat, loaded;
      }
      LoadOne(body, loaded, rest, model.ngrams, model.totals);
      if Count(model.ngrams[r.kind - 1], r.key) > INT64_MAX - r.count || model.totals[r.kind - 1] > SIZE_MAX - r.count {
        return Limit, loaded;
      }
      if fails(rest) {
        return OutOfMemory, loaded;
      }
      AddLoaded(model, r);
      loaded, rest := loaded + [r], one.rest;
    }
    status := Ok;
  }

  lemma AllLoaded(body: Bytes, loaded: seq<Rec>, ngrams: seq<Table>, totals: seq<nat>)
    requires Loading(body, loaded, [], ngrams, totals)
    ensures ReadAll(body) == Read(loaded) && ngrams == Tables4(loaded) && totals == Totals4(loaded)
    ensures TablesKeyed(ngrams) && (!AnyTooBig(ngrams) <==> RecordsFit(loaded))
  {
    hide AnyTooBig;
    hide KeyOf;
    hide TallyOf;
    hide TotalOf;
    assert loaded + [] == loaded;
    TallyKeyed(loaded, 1);
    TallyKeyed(loaded, 2);
    TallyKeyed(loaded, 3);
    TallyKeyed(loaded, 4);
  }

  lemma MeansModel(s: Saved, records: seq<Rec>, t: Tables, unkCount: nat)
    requires ParametersValid(s) && SizesAt(s.sizes, HEADER_SIZES).Sizes? && ReadAll(s.body) == Read(records)
    requires RecordsFit(records) && HeaderMatches(SizesAt(s.sizes, HEADER_SIZES).values, records)
    requires t.ngrams == Tables4(records) && Consistent(t)
    requires unkCount == SizesAt(s.sizes, HEADER_SIZES).values[5]
    ensures LoadedAs(s, t, unkCount)
  {
  }

  lemma Mismatch(s: Saved, records: seq<Rec>)
    requires ReadAll(s.body) == Read(records) && SizesAt(s.sizes, HEADER_SIZES).Sizes?
    requires !HeaderMatches(SizesAt(s.sizes, HEADER_SIZES).values, records) || !RecordsFit(records)
    ensures !Acceptable(s)
    ensures !HeaderMatches(SizesAt(s.sizes, HEADER_SIZES).values, records) ==> !WellFormed(s)
    ensures !RecordsFit(records) ==> Overflows(s.body)
  {
  }

  // The body, the comparison with the header and the derived tables, for a model that is not published yet.
  method Fill(model: Model, s: Saved, values: seq<nat>, fails: Bytes -> bool, failsRebuild: (nat, Bytes) -> bool)
    returns (status: Status)
    requires model.ngrams == [map[], map[], map[], map[]] && model.totals == [0, 0, 0, 0]
    requires ParametersValid(s) && SizesAt(s.sizes, HEADER_SIZES) == Sizes(values) && model.unkCount == values[5]
    modifies model`ngrams, model`totals, model`contexts, model`vocabSize
    ensures status == Ok ==> model.Valid() && LoadedAs(s, model.View(), model.unkCount)
    ensures status == BadFormat ==> !WellFormed(s)
    ensures status == Limit ==> Overflows(s.body)
    ensures status != BadArgument
    ensures status == OutOfMemory ==> (exists rest :: fails(rest)) || exists o: nat, key :: failsRebuild(o, key)
  {
    hide Loading;
    hide RecordsFit;
    hide ReadAll;
    hide Consistent;
    hide AnyTooBig;
    hide SizesAt;
    hide WellKeyed;
    hide LoadedAs;
    hide TallyOf;
    hide TotalOf;
    ghost var loaded;
    status, loaded := LoadBody(model, s.body, fails);
    if status != Ok {
      return;
    }
    AllLoaded(s.body, loaded, model.ngrams, model.totals);
    model.vocabSize := |model.ngrams[0]|;
    if model.totals != values[..ORDERS] || model.vocabSize != values[4] {
      Mismatch(s, loaded);
      return BadFormat;
    }
    status := RebuildDerived(model, false, failsRebuild);
    if status == Ok {
      MeansModel(s, loaded, model.View(), model.unkCount);
    } else if status == Limit {
      Mismatch(s, loaded);
    }
  }

  /** Allocation while loading: for the model, for the records, and for the derived tables. */
  datatype LoadMemory = LoadMemory(none: bool, fails: Bytes -> bool, failsRebuild: (nat, Bytes) -> bool) {
    ghost predicate MayFail() {
      none || (exists rest :: fails(rest)) || exists o: nat, key :: failsRebuild(o, key)
    }
  }

  /** Load a saved model, or none. */
  method Load(s: Saved, memory: LoadMemory)
    returns (status: Status, model: Model?)
    ensures status == Ok <==> model != null
    ensures model != null ==> fresh(model) && model.Valid() && LoadedAs(s, model.View(), model.unkCount)
    ensures model != null ==> model.alpha == s.alpha && model.discount == s.discount && !model.oom
    ensures status == BadFormat || status == Limit ==> !Acceptable(s)
    ensures status == BadFormat ==> !WellFormed(s)
    ensures status == Limit ==> SizesAt(s.sizes, HEADER_SIZES).SomeTooLarge? || Overflows(s.body)
    ensures status != BadArgument
    ensures status == OutOfMemory ==> memory.MayFail()
  {
    hide LoadedAs;
    hide RecordsFit;
    hide ReadAll;
    hide Consistent;
    hide SizesAt;
    model := null;
    if memory.none {
      return OutOfMemory, null;
    }
    var sizes := ParseSizes(s.sizes, HEADER_SIZES);
    if !sizes.Sizes? || s.alpha <= 0.0 || s.discount <= 0.0 || s.discount > 1.0 {
      return if sizes.SomeTooLarge? then Limit else BadFormat, null;
    }
    var loading := new Model(s.alpha);
    loading.discount, loading.unkCount := s.discount, sizes.values[5];
    status := Fill(loading, s, sizes.values, memory.fails, memory.failsRebuild);
    if status == Ok {
      model := loading;
    }
  }

  // ---- Round trips ----

  lemma SameDerived(t1: Tables, t2: Tables)
    requires Consistent(t1) && Consistent(t2) && t1.ngrams == t2.ngrams
    ensures t1 == t2
  {
    hide KeyOf;
    hide Derived;
    assert t1.totals == t2.totals;
    forall o | 0 <= o < ORDERS - 1 ensures t1.contexts[o] == t2.contexts[o] {
      assert t1.contexts[o] == Derived(t1.ngrams[o + 1], o + 1);
    }
    assert t1.contexts == t2.contexts;
  }

  /** What was saved from a consistent model is acceptable, and means that model. */
  lemma SaveThenLoad(t: Tables, unkCount: nat, alpha: real, discount: real, s: Saved)
    requires Consistent(t) && Bounded(t, unkCount) && alpha > 0.0 && 0.0 < discount <= 1.0
    requires SavedAs(t, |t.ngrams[0]|, unkCount, alpha, discount, s)
    ensures Acceptable(s)
    ensures forall t2, unk2: nat :: LoadedAs(s, t2, unk2) <==> t2 == t && unk2 == unkCount
  {
    hide ReadAll;
    hide WriteAll;
    hide SizesAt;
    hide RecordsFit;
    hide Consistent;
    hide TallyOf;
    hide TotalOf;
    var records :| s.body == WriteAll(records) && Spelled(records, t.ngrams);
    assert forall r :: r in records ==> ValidRec(r);
    BodyRoundTrip(records);
    var values := t.totals + [|t.ngrams[0]|, unkCount];
    assert |values| == HEADER_SIZES && values[..ORDERS] == t.totals by { ShapeOf(t); }
    VocabularyFits(t, unkCount);
    SizesRoundTrip(values);
    TotalsOf(t, records);
    SpelledFit(t, unkCount, records);
    forall t2, unk2: nat | LoadedAs(s, t2, unk2) ensures t2 == t {
      SameDerived(t2, t);
    }
  }

  lemma VocabularyFits(t: Tables, unkCount: nat)
    requires Consistent(t) && Bounded(t, unkCount)
    ensures |t.ngrams[0]| <= SIZE_MAX
  {
    hide KeyOf;
    SumBounds(t.ngrams[0].Keys, t.ngrams[0]);
  }

  lemma ShapeOf(t: Tables)
    requires Consistent(t)
    ensures t.Shape()
  {
  }

  lemma TotalsOf(t: Tables, records: seq<Rec>)
    requires Consistent(t) && Spelled(records, t.ngrams)
    ensures Totals4(records) == t.totals
  {
    hide TallyOf;
    hide TotalOf;
    hide SumOver;
    TallySum(records, 1);
    TallySum(records, 2);
    TallySum(records, 3);
    TallySum(records, 4);
  }

  lemma SpelledFit(t: Tables, unkCount: nat, records: seq<Rec>)
    requires Consistent(t) && Bounded(t, unkCount) && Spelled(records, t.ngrams)
    ensures RecordsFit(records)
  {
    hide TallyOf;
    hide KeyOf;
    TotalsOf(t, records);
    assert TablesKeyed(t.ngrams);
    forall o | 0 <= o < ORDERS ensures !TooBig(t.ngrams[o], o) {
      NotTooBig(t, unkCount, o);
    }
    forall o, key | 1 <= o <= ORDERS ensures Count(TallyOf(records, o), key) <= INT64_MAX {
      assert TallyOf(records, o) == t.ngrams[o - 1];
    }
    forall o | 1 <= o <= ORDERS ensures TotalOf(records, o) <= SIZE_MAX {
      assert TotalOf(records, o) == t.totals[o - 1];
    }
  }

  /** Reordering records, and splitting one, changes neither acceptability nor meaning. */
  lemma OnlySumsAreLoaded(s1: Saved, s2: Saved, r1: seq<Rec>, r2: seq<Rec>)
    requires s1.body == WriteAll(r1) && s2.body == WriteAll(r2) && s1 == s2.(body := s1.body)
    requires AllValid(r1) && AllValid(r2)
    requires forall kind, key :: KeySum(r1, kind, key) == KeySum(r2, kind, key)
    ensures Acceptable(s1) <==> Acceptable(s2)
    ensures forall t, unk: nat :: LoadedAs(s1, t, unk) <==> LoadedAs(s2, t, unk)
  {
    hide ReadAll;
    hide WriteAll;
    hide SizesAt;
    hide AnyTooBig;
    hide TablesKeyed;
    hide KeySum;
    hide Consistent;
    assert forall r :: r in r1 ==> ValidRec(r);
    assert forall r :: r in r2 ==> ValidRec(r);
    BodyRoundTrip(r1);
    BodyRoundTrip(r2);
    forall kind: nat ensures TallyOf(r1, kind) == TallyOf(r2, kind) && TotalOf(r1, kind) == TotalOf(r2, kind) {
      OnlySumsMatter(r1, r2, kind);
    }
  }

  /** A header that disagrees with the records is refused. */
  lemma DisagreeingHeader(s: Saved, o: nat)
    requires SizesAt(s.sizes, HEADER_SIZES).Sizes? && ReadAll(s.body).Read? && o < ORDERS
    requires SizesAt(s.sizes, HEADER_SIZES).values[o] != TotalOf(ReadAll(s.body).records, o + 1)
    ensures !Acceptable(s)
  {
    hide RecordsFit;
    hide ReadAll;
    hide SizesAt;
    hide TotalOf;
    hide TallyOf;
    var values, records := SizesAt(s.sizes, HEADER_SIZES).values, ReadAll(s.body).records;
    assert Totals4(records)[o] == TotalOf(records, o + 1);
    assert values[..ORDERS][o] == values[o];
  }

  /** What is accepted has usable parameters, and a header that states the total of every order and the size of
      the vocabulary; its sixth counter becomes the unknown count. */
  lemma AcceptableMeans(s: Saved, t: Tables, unkCount: nat)
    requires LoadedAs(s, t, unkCount)
    ensures s.alpha > 0.0 && 0.0 < s.discount <= 1.0
    ensures SizesAt(s.sizes, 6).Sizes? && ReadAll(s.body).Read?
    ensures var values, records := SizesAt(s.sizes, 6).values, ReadAll(s.body).records;
      && |values| == 6 && values[5] == unkCount
      && values[0] == TotalOf(records, 1) && values[1] == TotalOf(records, 2)
      && values[2] == TotalOf(records, 3) && values[3] == TotalOf(records, 4)
      && values[4] == |t.ngrams[0]|
      && forall r :: r in records ==> 1 <= r.kind <= 4 && 1 <= r.count <= 0x7FFF_FFFF_FFFF_FFFF
  {
    hide ReadAll;
    hide SizesAt;
    hide TotalOf;
    hide TallyOf;
    hide KeyOf;
    hide Consistent;
    hide TablesKeyed;
    hide AnyTooBig;
    var values, records := SizesAt(s.sizes, HEADER_SIZES).values, ReadAll(s.body).records;
    assert values[..ORDERS] == Totals4(records);
    forall o | 0 <= o < ORDERS ensures values[o] == TotalOf(records, o + 1) {
      assert values[..ORDERS][o] == values[o] && Totals4(records)[o] == TotalOf(records, o + 1);
    }
    assert values[0] == TotalOf(records, 0 + 1) && values[1] == TotalOf(records, 1 + 1);
    assert values[2] == TotalOf(records, 2 + 1) && values[3] == TotalOf(records, 3 + 1);
    assert RecordsFit(records);
  }
}
