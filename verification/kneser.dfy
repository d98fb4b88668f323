/** Kneser-Ney estimates over the tables of a model, as exact real probabilities. */
module KneserNey {
  import opened Bytes
  import opened Netstring
  import opened NgramStore
  import opened Records
  import opened ModelUpdate
  import opened Arithmetic

  /** What an estimate is read from. */
  datatype Estimates = Estimates(t: Tables, unkCount: nat, alpha: real, discount: real) {
    ghost predicate Sound() {
      Consistent(t) && alpha > 0.0 && 0.0 < discount <= 1.0
    }
  }

  // ---- Single stages ----

  function Denominator(e: Estimates): real
    requires e.t.Shape()
  {
    e.t.totals[0] as real + e.unkCount as real + Times(e.alpha, |e.t.ngrams[0]| as real + 1.0)
  }

  lemma DenominatorPositive(e: Estimates)
    requires e.Sound()
    ensures e.t.Shape() && Denominator(e) >= e.t.totals[0] as real + e.unkCount as real + e.alpha
  {
    hide Times;
    TimesDistributes(e.alpha, |e.t.ngrams[0]| as real, 1.0);
    TimesNotNegative(e.alpha, |e.t.ngrams[0]| as real);
  }

  /** The probability of a stage seen this often; zero means the bucket of unknown stages. */
  function Unigram(e: Estimates, count: nat): real
    requires e.t.Shape() && Denominator(e) > 0.0
  {
    Ratio((if count == 0 then e.unkCount else count) as real + e.alpha, Denominator(e))
  }

  lemma UnigramInUnit(e: Estimates, key: Bytes)
    requires e.Sound()
    ensures e.t.Shape() && Denominator(e) > 0.0 && 0.0 < Unigram(e, Count(e.t.ngrams[0], key)) <= 1.0
    ensures 0.0 < Unigram(e, 0) <= 1.0
  {
    hide KeyOf;
    hide Derived;
    hide Denominator;
    DenominatorPositive(e);
    var m := e.t.ngrams[0];
    if key in m {
      SumRemove(m.Keys, m, key);
    }
    RatioInUnit((if Count(m, key) == 0 then e.unkCount else Count(m, key)) as real + e.alpha, Denominator(e));
    RatioInUnit(e.unkCount as real + e.alpha, Denominator(e));
  }

  // ---- Sum of the single-stage distribution ----

  ghost function UnigramSum(e: Estimates, keys: set<Bytes>): real
    requires e.t.Shape() && Denominator(e) > 0.0 && keys <= e.t.ngrams[0].Keys
  {
    if keys == {} then 0.0
    else
      var k :| k in keys;
      Unigram(e, e.t.ngrams[0][k]) + UnigramSum(e, keys - {k})
  }

  lemma {:induction false} UnigramSumIs(e: Estimates, keys: set<Bytes>)
    requires e.t.Shape() && Denominator(e) > 0.0 && keys <= e.t.ngrams[0].Keys
    requires forall k :: k in keys ==> e.t.ngrams[0][k] >= 1
    ensures UnigramSum(e, keys) == Ratio(SumOver(keys, e.t.ngrams[0]) as real + Times(e.alpha, |keys| as real), Denominator(e))
    decreases |keys|
  {
    hide Denominator;
    hide SumOver;
    hide Ratio;
    hide Times;
    var m, d := e.t.ngrams[0], Denominator(e);
    if keys == {} {
      SumNone(m);
      NoShare(d, e.alpha);
    } else {
      var k :| k in keys && UnigramSum(e, keys) == Unigram(e, m[k]) + UnigramSum(e, keys - {k});
      UnigramSumIs(e, keys - {k});
      SumStep(e, keys, k);
    }
  }

  lemma SumStep(e: Estimates, keys: set<Bytes>, k: Bytes)
    requires e.t.Shape() && Denominator(e) > 0.0 && keys <= e.t.ngrams[0].Keys
    requires k in keys && e.t.ngrams[0][k] >= 1
    ensures var m, d := e.t.ngrams[0], Denominator(e);
      Unigram(e, m[k]) + Ratio(SumOver(keys - {k}, m) as real + Times(e.alpha, |keys - {k}| as real), d)
        == Ratio(SumOver(keys, m) as real + Times(e.alpha, |keys| as real), d)
  {
    hide Denominator;
    hide SumOver;
    hide Ratio;
    hide Times;
    var m := e.t.ngrams[0];
    SumRemove(keys, m, k);
    assert |keys| == |keys - {k}| + 1;
    AddStage(e.alpha, m[k], SumOver(keys - {k}, m), SumOver(keys, m), |keys - {k}|, |keys|, Denominator(e));
  }

  lemma SumNone(m: Table)
    ensures SumOver({}, m) == 0
  {
  }

  lemma NoShare(d: real, alpha: real)
    requires d > 0.0
    ensures Ratio(0 as real + Times(alpha, 0 as real), d) == 0.0
  {
  }

  lemma AddStage(alpha: real, count: nat, sum: nat, whole: nat, size: nat, more: nat, d: real)
    requires d > 0.0 && whole == count + sum && more == size + 1
    ensures Ratio(count as real + alpha, d) + Ratio(sum as real + Times(alpha, size as real), d)
      == Ratio(whole as real + Times(alpha, more as real), d)
  {
    hide Ratio;
    hide Times;
    TimesDistributes(alpha, size as real, 1.0);
    AddFractions(count as real + alpha, sum as real + Times(alpha, size as real), d);
  }

  /** Learned stages and the unknown bucket are one distribution. */
  lemma UnigramSumsToOne(e: Estimates)
    requires e.Sound()
    ensures e.t.Shape() && Denominator(e) > 0.0
    ensures UnigramSum(e, e.t.ngrams[0].Keys) + Unigram(e, 0) == 1.0
  {
    hide KeyOf;
    hide Derived;
    hide UnigramSum;
    hide Ratio;
    hide Times;
    DenominatorPositive(e);
    var m, d := e.t.ngrams[0], Denominator(e);
    UnigramSumIs(e, m.Keys);
    var learned := SumOver(m.Keys, m) as real + Times(e.alpha, |m.Keys| as real);
    AddFractions(learned, e.unkCount as real + e.alpha, d);
    assert |m.Keys| == |m|;
    TimesDistributes(e.alpha, |m| as real, 1.0);
    assert learned + (e.unkCount as real + e.alpha) == d;
    RatioOfItself(d);
  }

  // ---- One interpolation level ----

  function Discounted(count: nat, discount: real): real {
    if count as real - discount < 0.0 then 0.0 else count as real - discount
  }

  // What was seen of an n-gram, and the mass of its context handed to the lower level.
  function Blend(seen: real, mass: real, total: real, lower: real): real
    requires total > 0.0
  {
    Ratio(seen, total) + Times(Ratio(mass, total), lower)
  }

  /** The interpolated probability of an observed n-gram, with the guards of the implementation. */
  function Level(count: nat, context: Context, discount: real, lower: real, unknown: real): real
    requires context.total > 0
  {
    var p := Blend(Discounted(count, discount), Times(discount, context.continuations as real), context.total as real, lower);
    if p <= 0.0 then unknown else if p > 1.0 then 1.0 else p
  }

  // The same without guards, over one denominator.
  function Unguarded(count: nat, context: Context, discount: real, lower: real): real
    requires context.total > 0
  {
    var mass := Times(discount, context.continuations as real);
    Ratio(count as real - discount + Times(mass, lower), context.total as real)
  }

  /** None of the three guards acts on a count that its context accounts for. */
  lemma GuardsUnreachable(count: nat, context: Context, discount: real, lower: real, unknown: real)
    requires count >= 1 && context.continuations >= 1 && count + context.continuations - 1 <= context.total
    requires 0.0 < discount <= 1.0 && 0.0 < lower <= 1.0
    ensures Discounted(count, discount) == count as real - discount
    ensures 0.0 < Unguarded(count, context, discount, lower) <= 1.0
    ensures Level(count, context, discount, lower, unknown) == Unguarded(count, context, discount, lower)
  {
    hide Ratio;
    hide Times;
    hide Blend;
    var mass := Times(discount, context.continuations as real);
    MassBound(discount, context.continuations as real);
    BlendInUnit(count as real - discount, mass, context.total as real, lower);
  }

  // The mass handed down is at most what was taken from the n-grams of the context.
  lemma MassBound(discount: real, k: real)
    requires 0.0 < discount <= 1.0 && k >= 1.0
    ensures discount <= Times(discount, k) <= discount + k - 1.0
  {
    TimesNotNegative(1.0 - discount, k - 1.0);
    TimesNotNegative(discount, k - 1.0);
    assert (1.0 - discount) * (k - 1.0) == k - 1.0 - discount * k + discount;
    assert discount * (k - 1.0) == discount * k - discount;
  }

  lemma BlendInUnit(seen: real, mass: real, total: real, lower: real)
    requires seen >= 0.0 && mass > 0.0 && seen + mass <= total && 0.0 < lower <= 1.0
    ensures Blend(seen, mass, total, lower) == Ratio(seen + Times(mass, lower), total)
    ensures 0.0 < Ratio(seen + Times(mass, lower), total) <= 1.0
  {
    hide Ratio;
    hide Times;
    TimesShrinks(mass, lower);
    ScaledFraction(mass, total, lower);
    AddFractions(seen, Times(mass, lower), total);
    RatioInUnit(seen + Times(mass, lower), total);
  }

  // Every other n-gram of a context takes at least one from its total.
  lemma GroupAccounts(m: Table, order: nat, key: Bytes)
    requires WellKeyed(m, order + 1) && key in m
    ensures KeyOf(key, order + 1)
    ensures var c := GroupContext(m, order, Prefix(key, order));
      c.continuations >= 1 && m[key] + c.continuations - 1 <= c.total
  {
    hide KeyOf;
    hide Prefix;
    var group := Group(m, order, Prefix(key, order));
    assert key in group;
    SumRemove(group, m, key);
    SumBounds(group - {key}, m);
  }

  lemma ContextAccounts(t: Tables, items: seq<Bytes>, n: nat)
    requires Consistent(t) && 2 <= n <= ORDERS && |items| == n && Count(t.ngrams[n - 1], EncodeAll(items)) > 0
    ensures var count := Count(t.ngrams[n - 1], EncodeAll(items));
      var context := ContextAt(t.contexts[n - 2], EncodeAll(items[..n - 1]));
      context.continuations >= 1 && count + context.continuations - 1 <= context.total
  {
    hide EncodeAll;
    hide Prefix;
    hide Derived;
    hide KeyOf;
    hide GroupContext;
    hide SumOver;
    var m, key, order := t.ngrams[n - 1], EncodeAll(items), n - 1;
    StoredIsLearnable(t, items, n);
    PrefixOf(items, order);
    var o := order - 1;
    assert t.contexts[o] == Derived(t.ngrams[o + 1], o + 1);
    ContextOfPrefix(m, order, EncodeAll(items[..order]));
    GroupAccounts(m, order, key);
  }

  // Only sequences of learnable stages are stored.
  lemma StoredIsLearnable(t: Tables, items: seq<Bytes>, n: nat)
    requires Consistent(t) && 1 <= n <= ORDERS && |items| == n && EncodeAll(items) in t.ngrams[n - 1]
    ensures Learnable(items) && |EncodeAll(items)| <= MAX_KEY
  {
    hide EncodeAll;
    var key := EncodeAll(items);
    assert WellKeyed(t.ngrams[n - 1], n) by {
      var o := n - 1;
      assert WellKeyed(t.ngrams[o], o + 1);
    }
    EncodeAllInjective(items, Components(key, n));
    KeyLength(key, n);
  }

  // ---- The chain of levels ----

  ghost function NgramCount(t: Tables, window: seq<Bytes>): nat
    requires t.Shape() && 1 <= |window| <= ORDERS
  {
    Count(t.ngrams[|window| - 1], EncodeAll(window))
  }

  ghost function ContextFor(t: Tables, window: seq<Bytes>): Context
    requires t.Shape() && 2 <= |window| <= ORDERS
  {
    ContextAt(t.contexts[|window| - 2], EncodeAll(window[..|window| - 1]))
  }

  /** The probability of the last stage of a window given the others: an observed window is
      interpolated with the shorter one, an unobserved one falls back to it. */
  ghost function Chain(e: Estimates, window: seq<Bytes>): real
    requires e.t.Shape() && Denominator(e) > 0.0 && 1 <= |window| <= ORDERS
  {
    var count := NgramCount(e.t, window);
    if |window| == 1 then Unigram(e, count)
    else
      var lower := Chain(e, window[1..]);
      if count > 0 && ContextFor(e.t, window).total > 0
      then Level(count, ContextFor(e.t, window), e.discount, lower, Unigram(e, 0))
      else lower
  }

  /** Every probability lies in (0, 1], and is the unguarded interpolation formula. */
  lemma {:induction false} ChainInUnit(e: Estimates, window: seq<Bytes>)
    requires e.Sound() && 1 <= |window| <= ORDERS
    ensures e.t.Shape() && Denominator(e) > 0.0 && 0.0 < Chain(e, window) <= 1.0
    ensures |window| > 1 ==>
      var count, lower := NgramCount(e.t, window), Chain(e, window[1..]);
      if count == 0 then Chain(e, window) == lower
      else
        var c := ContextFor(e.t, window);
        && c.total > 0
        && Chain(e, window) == Unguarded(count, c, e.discount, lower)
  {
    hide EncodeAll;
    hide Level;
    hide Unguarded;
    hide Consistent;
    hide Denominator;
    hide Unigram;
    UnigramInUnit(e, EncodeAll(window));
    if |window| > 1 {
      ChainInUnit(e, window[1..]);
      if NgramCount(e.t, window) > 0 {
        ContextAccounts(e.t, window, |window|);
        GuardsUnreachable(NgramCount(e.t, window), ContextFor(e.t, window), e.discount, Chain(e, window[1..]), Unigram(e, 0));
      }
    }
  }

  /** A stage too long to be learned reads as unknown, whatever precedes it, even if its key fits the buffer. */
  lemma {:induction false} LongStageIsUnknown(e: Estimates, window: seq<Bytes>)
    requires e.Sound() && 1 <= |window| <= ORDERS && |window[|window| - 1]| > MAX_STAGE
    ensures e.t.Shape() && Denominator(e) > 0.0 && Chain(e, window) == Unigram(e, 0)
  {
    hide EncodeAll;
    hide Consistent;
    hide Denominator;
    hide Unigram;
    UnigramInUnit(e, []);
    if NgramCount(e.t, window) > 0 {
      StoredIsLearnable(e.t, window, |window|);
    }
    if |window| > 1 {
      LongStageIsUnknown(e, window[1..]);
    }
  }

  // ---- Reading a model ----

  function Of(model: Model): Estimates
    reads model
  {
    Estimates(Tables(model.ngrams, model.contexts, model.totals), model.unkCount, model.alpha, model.discount)
  }

  /** Interpolate with the level below if this window was observed. */
  method AtLevel(e: Estimates, window: seq<Bytes>, lower: real) returns (p: real)
    requires e.Sound() && 2 <= |window| <= ORDERS && e.t.Shape() && Denominator(e) > 0.0
    requires lower == Chain(e, window[1..])
    ensures p == Chain(e, window)
  {
    hide EncodeAll;
    hide Level;
    hide Consistent;
    hide Denominator;
    hide Unigram;
    var n := |window|;
    var key := BuildKey(window, MAX_KEY);
    if NgramCount(e.t, window) > 0 {
      StoredIsLearnable(e.t, window, n);
      KeyFits(window[..n - 1]);
      ContextAccounts(e.t, window, n);
    }
    EncodeSome(window);
    var count := if key != [] then Count(e.t.ngrams[n - 1], key) else 0;
    p := lower;
    if count > 0 {
      var context := BuildKey(window[..n - 1], MAX_KEY);
      p := Level(count, ContextAt(e.t.contexts[n - 2], context), e.discount, lower, Unigram(e, 0));
    }
  }

  lemma EncodeSome(window: seq<Bytes>)
    requires window != []
    ensures EncodeAll(window) != []
  {
    EncodeAllFirst(window);
    EncodeNonempty(window[0]);
  }

  /** The probability of the last stage of three or four. */
  method KnProbability(e: Estimates, window: seq<Bytes>) returns (p: real)
    requires e.Sound() && 3 <= |window| <= 4
    ensures e.t.Shape() && Denominator(e) > 0.0 && p == Chain(e, window)
    ensures 0.0 < p <= 1.0
  {
    hide Consistent;
    hide Chain;
    hide Denominator;
    var n := |window|;
    ChainInUnit(e, window);
    p := AtUnigram(e, window[n - 1]);
    assert window[n - 2..][1..] == [window[n - 1]];
    p := AtLevel(e, window[n - 2..], p);
    assert window[n - 3..][1..] == window[n - 2..];
    p := AtLevel(e, window[n - 3..], p);
    if n == 4 {
      p := AtLevel(e, window, p);
    } else {
      assert window[n - 3..] == window;
    }
  }

  method AtUnigram(e: Estimates, stage: Bytes) returns (p: real)
    requires e.Sound() && e.t.Shape() && Denominator(e) > 0.0
    ensures p == Chain(e, [stage])
  {
    hide Consistent;
    hide Denominator;
    hide EncodeAll;
    var key := BuildKey([stage], MAX_KEY);
    EncodeSome([stage]);
    if NgramCount(e.t, [stage]) > 0 {
      StoredIsLearnable(e.t, [stage], 1);
    }
    p := Unigram(e, if key != [] then Count(e.t.ngrams[0], key) else 0);
  }

  // ---- Scoring ----

  datatype Score = Infinite | Average(bits: real)

  // The code length of a probability.
  ghost predicate CodeLength(bits: real -> real) {
    forall p :: 0.0 < p <= 1.0 ==> bits(p) >= 0.0
  }

  ghost function BitsUpTo(e: Estimates, items: seq<Bytes>, n: nat, bits: real -> real): real
    requires e.t.Shape() && Denominator(e) > 0.0 && n <= |items|
  {
    if n < 4 then 0.0 else BitsUpTo(e, items, n - 1, bits) + bits(Chain(e, items[n - 4..n]))
  }

  /** The mean code length of the windows of a sequence; none without three stages or without training. */
  ghost function ScoreOf(e: Estimates, items: seq<Bytes>, bits: real -> real): Score
    requires e.t.Shape() && Denominator(e) > 0.0
  {
    if |items| < 3 || e.t.totals[0] == 0 then Infinite
    else if |items| == 3 then Average(bits(Chain(e, items)))
    else Average(Ratio(BitsUpTo(e, items, |items|, bits), (|items| - 3) as real))
  }

  /** A finite score is not negative. */
  lemma {:induction false} BitsNotNegative(e: Estimates, items: seq<Bytes>, n: nat, bits: real -> real)
    requires e.Sound() && n <= |items| && CodeLength(bits)
    ensures e.t.Shape() && Denominator(e) > 0.0 && BitsUpTo(e, items, n, bits) >= 0.0
  {
    hide Consistent;
    hide Chain;
    hide Denominator;
    DenominatorPositive(e);
    UnigramInUnit(e, []);
    if n >= 4 {
      BitsNotNegative(e, items, n - 1, bits);
      ChainInUnit(e, items[n - 4..n]);
    }
  }

  lemma ScoreNotNegative(e: Estimates, items: seq<Bytes>, bits: real -> real)
    requires e.Sound() && CodeLength(bits)
    ensures e.t.Shape() && Denominator(e) > 0.0
    ensures ScoreOf(e, items, bits).Average? ==> ScoreOf(e, items, bits).bits >= 0.0
  {
    hide Consistent;
    hide Chain;
    hide Denominator;
    hide BitsUpTo;
    BitsNotNegative(e, items, |items|, bits);
    if |items| == 3 {
      ChainInUnit(e, items);
    }
    if |items| > 3 {
      RatioOrdered(0.0, BitsUpTo(e, items, |items|, bits), (|items| - 3) as real);
    }
  }

  // The ring holds the last four stages, each at its index modulo four.
  ghost predicate Ring(ring: seq<Bytes>, items: seq<Bytes>) {
    |ring| == 4 && forall j :: 0 <= j < |items| && |items| - 4 <= j ==> ring[j % 4] == items[j]
  }

  lemma RingPush(ring: seq<Bytes>, items: seq<Bytes>, stage: Bytes)
    requires Ring(ring, items)
    ensures Ring(ring[|items| % 4 := stage], items + [stage])
  {
  }

  lemma RingLast(ring: seq<Bytes>, items: seq<Bytes>)
    requires Ring(ring, items)
    ensures var n := |items|;
      && (n >= 4 ==> [ring[(n - 4) % 4], ring[(n - 3) % 4], ring[(n - 2) % 4], ring[(n - 1) % 4]] == items[n - 4..n])
      && (n == 3 ==> [ring[0], ring[1], ring[2]] == items)
  {
  }

  // What one pass has summed after these stages.
  ghost predicate Summed(e: Estimates, items: seq<Bytes>, bits: real -> real, totalBits: real, scored: nat)
    requires e.t.Shape() && Denominator(e) > 0.0
  {
    && totalBits == (if e.t.totals[0] != 0 then BitsUpTo(e, items, |items|, bits) else 0.0)
    && scored == if e.t.totals[0] != 0 && |items| >= 4 then |items| - 3 else 0
  }

  lemma SummedOne(e: Estimates, items: seq<Bytes>, bits: real -> real, totalBits: real, scored: nat, stage: Bytes)
    requires e.t.Shape() && Denominator(e) > 0.0 && Summed(e, items, bits, totalBits, scored)
    ensures var n, more := |items| + 1, items + [stage];
      if e.t.totals[0] != 0 && n >= 4
      then Summed(e, more, bits, totalBits + bits(Chain(e, more[n - 4..n])), scored + 1)
      else Summed(e, more, bits, totalBits, scored)
  {
    hide Chain;
    hide Denominator;
    hide BitsUpTo;
    BitsOfPrefix(e, items, stage, |items|, bits);
    BitsStep(e, items + [stage], |items| + 1, bits);
    BitsStep(e, items, |items|, bits);
  }

  lemma BitsStep(e: Estimates, items: seq<Bytes>, n: nat, bits: real -> real)
    requires e.t.Shape() && Denominator(e) > 0.0 && n <= |items|
    ensures BitsUpTo(e, items, n, bits) ==
      if n < 4 then 0.0 else BitsUpTo(e, items, n - 1, bits) + bits(Chain(e, items[n - 4..n]))
  {
    hide Chain;
    hide Denominator;
  }

  /** Put a stage in the ring over the one four stages back. */
  method PushStage(window: array<Bytes>, ghost items: seq<Bytes>, seen: nat, stage: Bytes)
    requires window.Length == 4 && seen == |items| && Ring(window[..], items)
    modifies window
    ensures Ring(window[..], items + [stage])
  {
    RingPush(window[..], items, stage);
    window[seen % 4] := stage;
  }

  method LastFour(window: array<Bytes>, ghost items: seq<Bytes>, seen: nat) returns (last: seq<Bytes>)
    requires window.Length == 4 && 4 <= seen == |items| && Ring(window[..], items)
    ensures last == items[seen - 4..seen]
  {
    RingLast(window[..], items);
    last := [window[(seen - 4) % 4], window[(seen - 3) % 4], window[(seen - 2) % 4], window[(seen - 1) % 4]];
  }

  /** Put the next stage in the ring and add the bits of the window it completes. */
  method TakeStage(e: Estimates, window: array<Bytes>, ghost items: seq<Bytes>, seen: nat, stage: Bytes,
                   bits: real -> real, totalBits: real, scored: nat)
    returns (totalBits': real, scored': nat)
    requires e.Sound() && e.t.Shape() && Denominator(e) > 0.0
    requires window.Length == 4 && seen == |items| && Ring(window[..], items) && Summed(e, items, bits, totalBits, scored)
    modifies window
    ensures Ring(window[..], items + [stage]) && Summed(e, items + [stage], bits, totalBits', scored')
  {
    hide Consistent;
    hide Chain;
    hide Denominator;
    hide Ring;
    hide Summed;
    totalBits', scored' := totalBits, scored;
    SummedOne(e, items, bits, totalBits, scored, stage);
    PushStage(window, items, seen, stage);
    ghost var more := items + [stage];
    if e.t.totals[0] != 0 && seen + 1 >= 4 {
      var last := LastFour(window, more, seen + 1);
      var p := KnProbability(e, last);
      totalBits', scored' := totalBits + bits(p), scored + 1;
    }
  }

  /** Score a sequence in one pass, keeping the last four stages in a ring. */
  method ScoreNetseq(model: Model, netseq: Bytes, bits: real -> real) returns (status: Status, count: nat, score: Score)
    requires Of(model).Sound()
    ensures status == Ok || status == BadFormat
    ensures status == BadFormat <==> !Framed(netseq)
    ensures status != Ok ==> count == 0 && score == Infinite
    ensures Of(model).t.Shape() && Denominator(Of(model)) > 0.0
    ensures status == Ok ==> Scored(Of(model), netseq, bits, count, score)
  {
    hide Consistent;
    hide Chain;
    hide Denominator;
    hide Next;
    hide Encode;
    hide EncodeAll;
    hide Ring;
    hide Summed;
    hide Framed;
    hide ScoreOf;
    hide Ratio;
    hide Times;
    var e := Of(model);
    UnigramInUnit(e, []);
    EncodeNone();
    var window := new Bytes[4][[], [], [], []];
    var totalBits, seen, scored := 0.0, 0, 0;
    var rest := netseq;
    ghost var items: seq<Bytes> := [];
    NothingSummed(e, bits, window[..]);
    while rest != []
      invariant |items| == seen && netseq == EncodeAll(items) + rest
      invariant Ring(window[..], items) && Summed(e, items, bits, totalBits, scored)
      decreases |rest|
    {
      var parsed := Next(rest);
      if parsed.Malformed? {
        NotFramed(netseq, items, rest);
        return BadFormat, 0, Infinite;
      }
      NextIsRecord(rest, parsed.payload, parsed.rest);
      EncodeMore(items, parsed.payload, parsed.rest);
      EncodeNonempty(parsed.payload);
      totalBits, scored := TakeStage(e, window, items, seen, parsed.payload, bits, totalBits, scored);
      items, rest, seen := items + [parsed.payload], parsed.rest, seen + 1;
    }
    assert EncodeAll(items) + [] == EncodeAll(items);
    assert Framed(netseq) by { IsFramed(netseq, items); }
    status, count, score := Ok, seen, Infinite;
    ScoredIs(e, netseq, items, bits, totalBits, scored);
    if seen < 3 || e.t.totals[0] == 0 {
      return;
    }
    if seen == 3 {
      RingLast(window[..], items);
      var p := KnProbability(e, [window[0], window[1], window[2]]);
      totalBits, scored := totalBits + bits(p), 1;
    }
    score := Average(Ratio(totalBits, scored as real));
  }

  ghost predicate Scored(e: Estimates, netseq: Bytes, bits: real -> real, count: nat, score: Score)
    requires e.t.Shape() && Denominator(e) > 0.0
  {
    exists items: seq<Bytes> :: netseq == EncodeAll(items) && count == |items| && score == ScoreOf(e, items, bits)
  }

  lemma NothingSummed(e: Estimates, bits: real -> real, ring: seq<Bytes>)
    requires e.t.Shape() && Denominator(e) > 0.0 && |ring| == 4
    ensures Ring(ring, []) && Summed(e, [], bits, 0.0, 0)
  {
    hide Denominator;
  }

  lemma IsFramed(netseq: Bytes, items: seq<Bytes>)
    requires netseq == EncodeAll(items)
    ensures Framed(netseq)
  {
  }

  // How the sum is turned into the score.
  lemma ScoredIs(e: Estimates, netseq: Bytes, items: seq<Bytes>, bits: real -> real, totalBits: real, scored: nat)
    requires e.t.Shape() && Denominator(e) > 0.0 && netseq == EncodeAll(items)
    requires Summed(e, items, bits, totalBits, scored)
    ensures |items| < 3 || e.t.totals[0] == 0 ==> Scored(e, netseq, bits, |items|, Infinite)
    ensures |items| == 3 && e.t.totals[0] != 0 ==>
      Scored(e, netseq, bits, 3, Average(Ratio(totalBits + bits(Chain(e, items)), 1 as real)))
    ensures |items| > 3 && e.t.totals[0] != 0 ==>
      scored > 0 && Scored(e, netseq, bits, |items|, Average(Ratio(totalBits, scored as real)))
  {
    hide Chain;
    hide Denominator;
    hide EncodeAll;
    hide Ratio;
    if |items| == 3 && e.t.totals[0] != 0 {
      assert totalBits == 0.0;
      RatioOfOne(totalBits + bits(Chain(e, items)));
    }
    assert Scored(e, netseq, bits, |items|, ScoreOf(e, items, bits));
  }

  lemma NotFramed(netseq: Bytes, items: seq<Bytes>, rest: Bytes)
    requires netseq == EncodeAll(items) + rest && rest != [] && Next(rest).Malformed?
    ensures !Framed(netseq)
  {
    hide Next;
    hide EncodeAll;
    forall whole | netseq == EncodeAll(whole) ensures false {
      SuffixIsRecords(whole, items, rest);
    }
  }

  lemma {:induction false} BitsOfPrefix(e: Estimates, items: seq<Bytes>, more: Bytes, n: nat, bits: real -> real)
    requires e.t.Shape() && Denominator(e) > 0.0 && n <= |items|
    ensures BitsUpTo(e, items, n, bits) == BitsUpTo(e, items + [more], n, bits)
  {
    hide Chain;
    hide Denominator;
    hide BitsUpTo;
    BitsStep(e, items, n, bits);
    BitsStep(e, items + [more], n, bits);
    if n >= 4 {
      BitsOfPrefix(e, items, more, n - 1, bits);
      assert (items + [more])[n - 4..n] == items[n - 4..n];
    }
  }

  // ---- Written out ----

  /** The probability of a window, stated by multiplication: a single stage takes its count (or the unknown count)
      plus alpha from all counts plus alpha for every known stage and one more; a longer window that was counted
      takes its count less the discount, plus the discount for every continuation of its context times the
      probability of the shorter window, from the total of its context; one that was not reads as the shorter one. */
  lemma ChainMeans(e: Estimates, window: seq<Bytes>)
    requires e.Sound() && 1 <= |window| <= 4
    ensures e.t.Shape() && Denominator(e) > 0.0
    ensures |window| == 1 ==>
      var key := EncodeAll(window);
      Chain(e, window) * (e.t.totals[0] as real + e.unkCount as real + e.alpha * (|e.t.ngrams[0]| + 1) as real)
        == (if key in e.t.ngrams[0] then e.t.ngrams[0][key] else e.unkCount) as real + e.alpha
    ensures |window| > 1 ==>
      var m, key, context := e.t.ngrams[|window| - 1], EncodeAll(window), EncodeAll(window[..|window| - 1]);
      if key !in m then Chain(e, window) == Chain(e, window[1..])
      else
        && context in e.t.contexts[|window| - 2]
        && var c := e.t.contexts[|window| - 2][context];
           Chain(e, window) * c.total as real
             == m[key] as real - e.discount + e.discount * c.continuations as real * Chain(e, window[1..])
  {
    hide EncodeAll;
    hide Consistent;
    hide Chain;
    hide Ratio;
    hide Times;
    ChainInUnit(e, window);
    Positive(e, window);
    if |window| == 1 {
      ChainOfOne(e, window);
      RatioTimes((if Count(e.t.ngrams[0], EncodeAll(window)) == 0 then e.unkCount else Count(e.t.ngrams[0], EncodeAll(window))) as real + e.alpha,
                 Denominator(e));
      PlainTimes(e.alpha, |e.t.ngrams[0]| as real + 1.0);
    } else if NgramCount(e.t, window) > 0 {
      var c, lower := ContextFor(e.t, window), Chain(e, window[1..]);
      var mass := Times(e.discount, c.continuations as real);
      RatioTimes(NgramCount(e.t, window) as real - e.discount + Times(mass, lower), c.total as real);
      PlainTimes(e.discount, c.continuations as real);
      PlainTimes(mass, lower);
    }
  }

  lemma ChainOfOne(e: Estimates, window: seq<Bytes>)
    requires e.t.Shape() && Denominator(e) > 0.0 && |window| == 1
    ensures Chain(e, window) == Unigram(e, NgramCount(e.t, window))
  {
    hide EncodeAll;
    hide Denominator;
    hide Unigram;
  }

  // Stored counts are positive.
  lemma Positive(e: Estimates, window: seq<Bytes>)
    requires Consistent(e.t) && 1 <= |window| <= 4
    ensures EncodeAll(window) in e.t.ngrams[|window| - 1] <==> NgramCount(e.t, window) > 0
  {
    hide EncodeAll;
    hide KeyOf;
    hide Derived;
    var o := |window| - 1;
    assert WellKeyed(e.t.ngrams[o], o + 1);
  }

  lemma RatioTimes(n: real, d: real)
    requires d > 0.0
    ensures Ratio(n, d) * d == n
  {
  }

  lemma PlainTimes(a: real, b: real)
    ensures Times(a, b) == a * b
  {
  }

  /** The score, stated stage by stage: the code length of the only three stages, or of the only four; ... */
  lemma ShortScores(e: Estimates, items: seq<Bytes>, bits: real -> real)
    requires e.t.Shape() && Denominator(e) > 0.0
    ensures |items| < 3 || e.t.totals[0] == 0 ==> ScoreOf(e, items, bits) == Infinite
    ensures (|items| == 3 || |items| == 4) && e.t.totals[0] > 0 ==> ScoreOf(e, items, bits) == Average(bits(Chain(e, items)))
  {
    hide Chain;
    hide Denominator;
    hide Ratio;
    hide BitsUpTo;
    if |items| == 4 {
      BitsStep(e, items, 4, bits);
      BitsStep(e, items, 3, bits);
      assert items[0..4] == items;
      RatioOfOne(bits(Chain(e, items)));
    }
  }

  /** ... and every further stage adds the code length of the last four to a mean over all windows of four. */
  lemma LongerScores(e: Estimates, items: seq<Bytes>, stage: Bytes, bits: real -> real)
    requires e.t.Shape() && Denominator(e) > 0.0 && |items| >= 4 && e.t.totals[0] > 0
    ensures ScoreOf(e, items, bits).Average? && ScoreOf(e, items + [stage], bits).Average?
    ensures ScoreOf(e, items + [stage], bits).bits * (|items| - 2) as real
      == ScoreOf(e, items, bits).bits * (|items| - 3) as real + bits(Chain(e, items[|items| - 3..] + [stage]))
  {
    hide Chain;
    hide Denominator;
    hide BitsUpTo;
    hide Ratio;
    OneMoreBit(e, items, stage, bits);
    var before, after := BitsUpTo(e, items, |items|, bits), BitsUpTo(e, items + [stage], |items| + 1, bits);
    assert |items + [stage]| - 3 == |items| - 2;
    MeanTimes(before, |items| - 3, ScoreOf(e, items, bits).bits);
    MeanTimes(after, |items| - 2, ScoreOf(e, items + [stage], bits).bits);
  }

  lemma MeanTimes(sum: real, n: nat, mean: real)
    requires n > 0 && mean == Ratio(sum, n as real)
    ensures mean * n as real == sum
  {
  }

  lemma OneMoreBit(e: Estimates, items: seq<Bytes>, stage: Bytes, bits: real -> real)
    requires e.t.Shape() && Denominator(e) > 0.0 && |items| >= 4
    ensures BitsUpTo(e, items + [stage], |items| + 1, bits)
      == BitsUpTo(e, items, |items|, bits) + bits(Chain(e, items[|items| - 3..] + [stage]))
  {
    hide Chain;
    hide Denominator;
    hide BitsUpTo;
    var n, more := |items|, items + [stage];
    BitsStep(e, more, n + 1, bits);
    BitsOfPrefix(e, items, stage, n, bits);
    assert more[n - 3..n + 1] == items[n - 3..] + [stage];
  }
}
