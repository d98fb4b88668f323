/** Histograms of normal component scores and the smoothed empirical distribution they give. */
module ScoreHistogram {
  import opened Arithmetic

  const BUCKETS := 128
  const MAX_SCORE := 50.0

  /** A score; a sequence that cannot be scored has none. */
  datatype Score = Infinite | Finite(value: real)

  function Sum(hist: seq<nat>): nat {
    if hist == [] then 0 else Sum(hist[..|hist| - 1]) + hist[|hist| - 1]
  }

  // A histogram that is allocated counts its samples.
  ghost predicate Counts(hist: seq<nat>, total: nat) {
    (hist == [] || |hist| == BUCKETS) && Sum(hist) == total
  }

  function Empty(): (hist: seq<nat>)
    ensures |hist| == BUCKETS
  {
    seq(BUCKETS, _ => 0)
  }

  lemma {:induction false} ZeroSum(hist: seq<nat>)
    requires forall i :: 0 <= i < |hist| ==> hist[i] == 0
    ensures Sum(hist) == 0
  {
    if hist != [] {
      ZeroSum(hist[..|hist| - 1]);
    }
  }

  lemma EmptyCounts()
    ensures Counts(Empty(), 0) && Counts([], 0)
  {
    ZeroSum(Empty());
  }

  lemma {:induction false} SumMore(hist: seq<nat>, b: nat)
    requires b < |hist|
    ensures Sum(hist[b := hist[b] + 1]) == Sum(hist) + 1
  {
    var more, front := hist[b := hist[b] + 1], hist[..|hist| - 1];
    if b < |front| {
      SumMore(front, b);
      assert more[..|hist| - 1] == front[b := front[b] + 1];
    } else {
      assert more[..|hist| - 1] == front;
    }
  }

  lemma {:induction false} SumPrefix(hist: seq<nat>, i: nat, j: nat)
    requires i < j <= |hist|
    ensures Sum(hist[..i]) + hist[i] <= Sum(hist[..j])
  {
    assert hist[..j][..j - 1] == hist[..j - 1];
    if i < j - 1 {
      SumPrefix(hist, i, j - 1);
    }
  }

  // ---- Buckets ----

  /** The bucket of a score that is not negative; large scores share the last one. */
  function Bucket(score: real): (b: nat)
    requires score >= 0.0
    ensures b < BUCKETS
  {
    if score >= MAX_SCORE then BUCKETS - 1 else (score / MAX_SCORE * BUCKETS as real).Floor
  }

  lemma BucketOrdered(a: real, b: real)
    requires 0.0 <= a <= b
    ensures Bucket(a) <= Bucket(b)
  {
  }

  /** There are 128 buckets of equal width below a score of 50, and the last one takes the rest. */
  lemma BucketIs(score: real, b: nat)
    requires 0.0 <= score
    ensures b == Bucket(score) <==>
      if score >= 50.0 then b == 127 else b as real * 50.0 <= score * 128.0 < (b + 1) as real * 50.0
  {
    if score < 50.0 {
      var scaled := score / MAX_SCORE * BUCKETS as real;
      assert scaled * 50.0 == score * 128.0;
      assert scaled.Floor as real <= scaled < (scaled.Floor + 1) as real;
    }
  }

  // Exactly the bucket of a finite score that is not negative has grown, if there are buckets.
  ghost predicate RecordedIn(hist: seq<nat>, total: nat, more: seq<nat>, count: nat, score: Score) {
    && |more| == |hist|
    && count == total + (if hist != [] && score.Finite? && score.value >= 0.0 then 1 else 0)
    && forall i :: 0 <= i < |hist| ==>
         more[i] == hist[i] + if score.Finite? && score.value >= 0.0 && i == Bucket(score.value) then 1 else 0
  }

  /** Count one more normal score; scores that are infinite or negative are not normal. */
  method Record(hist: seq<nat>, total: nat, score: Score) returns (more: seq<nat>, count: nat)
    requires Counts(hist, total)
    ensures Counts(more, count) && RecordedIn(hist, total, more, count, score)
  {
    more, count := hist, total;
    if hist == [] || score.Infinite? || score.value < 0.0 {
      return;
    }
    var bucket := Bucket(score.value);
    SumMore(hist, bucket);
    more, count := hist[bucket := hist[bucket] + 1], total + 1;
  }

  /** What is counted, written out: a finite score that is not negative, in its bucket; nothing else. */
  lemma RecordMeans(hist: seq<nat>, total: nat, more: seq<nat>, count: nat, score: Score, b: nat)
    requires |hist| == 128 && RecordedIn(hist, total, more, count, score) && b < 128
    requires score.Finite? && score.value >= 0.0 ==>
      if score.value >= 50.0 then b == 127 else b as real * 50.0 <= score.value * 128.0 < (b + 1) as real * 50.0
    ensures score.Finite? && score.value >= 0.0 ==> count == total + 1 && more == hist[b := hist[b] + 1]
    ensures score.Infinite? || score.value < 0.0 ==> count == total && more == hist
  {
    hide Bucket;
    if score.Finite? && score.value >= 0.0 {
      BucketIs(score.value, b);
    }
  }

  // ---- The smoothed distribution ----

  // Twice the mid-rank, so that it is an integer.
  function Rank2(hist: seq<nat>, bucket: nat): nat
    requires bucket < |hist|
  {
    2 * Sum(hist[..bucket]) + hist[bucket]
  }

  /** The share of samples below a score, with half of those in its own bucket. */
  function Share(hist: seq<nat>, total: nat, score: real): real
    requires |hist| == BUCKETS && score >= 0.0
  {
    Ratio(Rank2(hist, Bucket(score)) as real + 1.0, 2.0 * (total as real + 1.0))
  }

  /** The share is strictly between zero and one, so that its odds exist. */
  lemma ShareInside(hist: seq<nat>, total: nat, score: real)
    requires |hist| == BUCKETS && Counts(hist, total) && score >= 0.0
    ensures 0.0 < Share(hist, total, score) < 1.0
  {
    hide Sum;
    hide Ratio;
    hide Bucket;
    var bucket := Bucket(score);
    SumPrefix(hist, bucket, BUCKETS);
    assert hist[..BUCKETS] == hist;
    RatioBelowOne(Rank2(hist, bucket) as real + 1.0, 2.0 * (total as real + 1.0));
  }

  /** A larger score has at least as large a share. */
  lemma ShareOrdered(hist: seq<nat>, total: nat, a: real, b: real)
    requires |hist| == BUCKETS && 0.0 <= a <= b
    ensures Share(hist, total, a) <= Share(hist, total, b)
  {
    hide Sum;
    hide Ratio;
    hide Bucket;
    BucketOrdered(a, b);
    if Bucket(a) < Bucket(b) {
      SumPrefix(hist, Bucket(a), Bucket(b));
    }
    RatioOrdered(Rank2(hist, Bucket(a)) as real + 1.0, Rank2(hist, Bucket(b)) as real + 1.0, 2.0 * (total as real + 1.0));
  }

  /** The share, written out for the bucket a score falls into: the samples below it, half of those in it
      and one half more, among one more than all. */
  lemma ShareIs(hist: seq<nat>, total: nat, score: real, b: nat)
    requires |hist| == 128 && score >= 0.0 && b < 128
    requires if score >= 50.0 then b == 127 else b as real * 50.0 <= score * 128.0 < (b + 1) as real * 50.0
    ensures Share(hist, total, score) * (total as real + 1.0) == Sum(hist[..b]) as real + hist[b] as real / 2.0 + 0.5
  {
    hide Sum;
    hide Ratio;
    hide Bucket;
    BucketIs(score, b);
    var n, d := Rank2(hist, b) as real + 1.0, total as real + 1.0;
    HalfRank(Sum(hist[..b]), hist[b], total);
    RatioCancels(n / 2.0, d);
  }

  /** Odds are taken of the share of a finite score; without samples, or a score to compare, they are even. */
  lemma OddsAre(hist: seq<nat>, total: nat, score: Score, logit: real -> real)
    requires hist == [] || |hist| == 128
    ensures hist == [] || total == 0 || score.Infinite? || score.value < 0.0 ==> LogOddsOf(hist, total, score, logit) == 0.0
    ensures |hist| == 128 && total > 0 && score.Finite? && score.value >= 0.0 ==>
      LogOddsOf(hist, total, score, logit) == logit(Share(hist, total, score.value))
  {
  }

  // The log odds of a share: increasing inside (0, 1).
  ghost predicate Increasing(logit: real -> real) {
    forall x, y :: 0.0 < x <= y < 1.0 ==> logit(x) <= logit(y)
  }

  function LogOddsOf(hist: seq<nat>, total: nat, score: Score, logit: real -> real): real
    requires hist == [] || |hist| == BUCKETS
  {
    if hist == [] || total == 0 || score.Infinite? || score.value < 0.0 then 0.0
    else logit(Share(hist, total, score.value))
  }

  /** The log odds of a score among the recorded ones. */
  method LogOdds(hist: seq<nat>, total: nat, score: Score, logit: real -> real) returns (odds: real)
    requires Counts(hist, total)
    ensures odds == LogOddsOf(hist, total, score, logit)
  {
    hide Ratio;
    hide Bucket;
    if hist == [] || total == 0 || score.Infinite? || score.value < 0.0 {
      return 0.0;
    }
    var bucket := Bucket(score.value);
    var below := 0;
    for i := 0 to bucket
      invariant below == Sum(hist[..i])
    {
      assert hist[..i + 1][..i] == hist[..i];
      below := below + hist[i];
    }
    var rank := below as real + 0.5 * hist[bucket] as real;
    HalfRank(below, hist[bucket], total);
    odds := logit(Ratio(rank + 0.5, total as real + 1.0));
  }

  lemma HalfRank(below: nat, here: nat, total: nat)
    ensures Ratio(below as real + 0.5 * here as real + 0.5, total as real + 1.0)
      == Ratio((2 * below + here) as real + 1.0, 2.0 * (total as real + 1.0))
  {
    var a, d := below as real + 0.5 * here as real + 0.5, total as real + 1.0;
    assert (2 * below + here) as real + 1.0 == 2.0 * a;
    DoubledFraction(a, d);
  }

  lemma DoubledFraction(a: real, d: real)
    requires d > 0.0
    ensures Ratio(2.0 * a, 2.0 * d) == Ratio(a, d)
  {
  }

  lemma LogOddsOrdered(hist: seq<nat>, total: nat, a: real, b: real, logit: real -> real)
    requires Counts(hist, total) && 0.0 <= a <= b && Increasing(logit)
    ensures LogOddsOf(hist, total, Finite(a), logit) <= LogOddsOf(hist, total, Finite(b), logit)
  {
    hide Share;
    if hist != [] {
      ShareInside(hist, total, a);
      ShareInside(hist, total, b);
      ShareOrdered(hist, total, a, b);
    }
  }
}
