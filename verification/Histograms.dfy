/** Histogram quantiles (crates/imbh-core/src/histogram.rs), over the reals.

    Both estimators are one walk over an ordered list of buckets, `Locate`; the counts saturate as
    in the source. */
module Histograms {
  import opened Basics

  /** A quantile argument: a number or NaN. */
  datatype Phi = PhiNaN | Phi(p: real)

  datatype Quantile = NotANumber | NegInfinity | PosInfinity | Estimate(x: real)

  datatype Bucket = Bucket(lower: real, upper: real, count: u64)

  // ----- the walk

  /** Linear interpolation inside a bucket that `before` observations precede. */
  function Inside(b: Bucket, rank: real, before: u64): real {
    if b.count == 0 then b.upper
    else Along(b.lower, b.upper, Share(rank - before as real, b.count as real))
  }

  function Share(x: real, c: real): real
    requires c > 0.0
  {
    x / c
  }

  function Along(lower: real, upper: real, f: real): real { lower + (upper - lower) * f }

  /** The estimate from the first bucket whose cumulative count reaches `rank`. */
  function Locate(bs: seq<Bucket>, rank: real, cumulative: u64): Option<real> {
    if bs == [] then None
    else
      var after := SaturatingAdd(cumulative, bs[0].count);
      if after as real >= rank then Some(Inside(bs[0], rank, after - bs[0].count))
      else Locate(bs[1..], rank, after)
  }

  function Total(bs: seq<Bucket>, cumulative: u64): u64 {
    if bs == [] then cumulative else Total(bs[1..], SaturatingAdd(cumulative, bs[0].count))
  }

  /** Buckets in value order, each with its edges in order. */
  ghost predicate InOrder(bs: seq<Bucket>) {
    && (forall i :: 0 <= i < |bs| ==> bs[i].lower <= bs[i].upper)
    && (forall i, j :: 0 <= i < j < |bs| ==> bs[i].upper <= bs[j].lower)
  }

  lemma ScaleReflects(p: real, q: real, c: real)
    requires p * c <= q * c && c > 0.0
    ensures p <= q
  {
  }

  lemma ShareMonotone(x: real, y: real, c: real)
    requires x <= y && c > 0.0
    ensures Share(x, c) <= Share(y, c)
  {
    ScaleReflects(Share(x, c), Share(y, c), c);
  }

  lemma ShareBounds(x: real, c: real)
    requires 0.0 <= x <= c && c > 0.0
    ensures 0.0 <= Share(x, c) <= 1.0
  {
    ShareMonotone(0.0, x, c);
    ShareMonotone(x, c, c);
  }

  lemma AlongMonotone(lower: real, upper: real, f: real, g: real)
    requires lower <= upper && f <= g
    ensures Along(lower, upper, f) <= Along(lower, upper, g)
  {
  }

  lemma AlongBounds(lower: real, upper: real, f: real)
    requires lower <= upper && 0.0 <= f <= 1.0
    ensures lower <= Along(lower, upper, f) <= upper
  {
    AlongMonotone(lower, upper, 0.0, f);
    AlongMonotone(lower, upper, f, 1.0);
  }

  lemma InsideBucket(b: Bucket, rank: real, cumulative: u64)
    requires b.lower <= b.upper && cumulative as real <= rank <= SaturatingAdd(cumulative, b.count) as real
    ensures b.lower <= Inside(b, rank, SaturatingAdd(cumulative, b.count) - b.count) <= b.upper
  {
    if b.count > 0 {
      var x, c := rank - (SaturatingAdd(cumulative, b.count) - b.count) as real, b.count as real;
      ShareBounds(x, c);
      AlongBounds(b.lower, b.upper, Share(x, c));
    }
  }

  lemma InsideMonotone(b: Bucket, r1: real, r2: real, before: u64)
    requires b.lower <= b.upper && r1 <= r2
    ensures Inside(b, r1, before) <= Inside(b, r2, before)
  {
    if b.count > 0 {
      var x, y, c := r1 - before as real, r2 - before as real, b.count as real;
      ShareMonotone(x, y, c);
      AlongMonotone(b.lower, b.upper, Share(x, c), Share(y, c));
    }
  }

  /** `x` is the estimate in bucket `i`, the one where the cumulative count reaches `rank`. */
  ghost predicate Chosen(bs: seq<Bucket>, rank: real, cumulative: u64, i: nat, x: real) {
    && i < |bs| && rank <= Total(bs[..i + 1], cumulative) as real
    && (i > 0 ==> Total(bs[..i], cumulative) as real < rank)
    && bs[i].count <= Total(bs[..i + 1], cumulative)
    && x == Inside(bs[i], rank, Total(bs[..i + 1], cumulative) - bs[i].count)
    && bs[i].lower <= x <= bs[i].upper
  }

  lemma {:induction false} TotalPrefix(bs: seq<Bucket>, i: nat, cumulative: u64)
    requires 0 < i <= |bs|
    ensures Total(bs[..i], cumulative) == Total(bs[1..][..i - 1], SaturatingAdd(cumulative, bs[0].count))
  {
    assert bs[..i][1..] == bs[1..][..i - 1];
  }

  lemma {:induction false} ChosenLater(bs: seq<Bucket>, rank: real, cumulative: u64, i: nat, x: real)
    requires bs != [] && SaturatingAdd(cumulative, bs[0].count) as real < rank
    requires Chosen(bs[1..], rank, SaturatingAdd(cumulative, bs[0].count), i, x)
    ensures Chosen(bs, rank, cumulative, i + 1, x)
  {
    TotalPrefix(bs, i + 1, cumulative);
    TotalPrefix(bs, i + 2, cumulative);
    if i == 0 {
      assert bs[1..][..0] == [];
    }
  }

  /** A rank within the total is always found, in the bucket where the cumulative count reaches it, and
      between that bucket's edges. */
  lemma {:induction false} LocateBounds(bs: seq<Bucket>, rank: real, cumulative: u64) returns (i: nat)
    requires InOrder(bs) && bs != [] && cumulative as real <= rank <= Total(bs, cumulative) as real
    ensures Locate(bs, rank, cumulative).Some?
    ensures Chosen(bs, rank, cumulative, i, Locate(bs, rank, cumulative).value)
  {
    var after := SaturatingAdd(cumulative, bs[0].count);
    if after as real >= rank {
      i := 0;
      InsideBucket(bs[0], rank, cumulative);
      TotalPrefix(bs, 1, cumulative);
      assert bs[1..][..0] == [];
    } else {
      i := LocateBounds(bs[1..], rank, after);
      ChosenLater(bs, rank, cumulative, i, Locate(bs, rank, cumulative).value);
      i := i + 1;
    }
  }

  /** A larger rank never gives a smaller estimate. */
  lemma {:induction false} LocateMonotone(bs: seq<Bucket>, r1: real, r2: real, cumulative: u64)
    requires InOrder(bs) && bs != [] && cumulative as real <= r1 <= r2 <= Total(bs, cumulative) as real
    ensures Locate(bs, r1, cumulative).Some? && Locate(bs, r2, cumulative).Some?
    ensures Locate(bs, r1, cumulative).value <= Locate(bs, r2, cumulative).value
  {
    var after := SaturatingAdd(cumulative, bs[0].count);
    if after as real >= r2 {
      InsideMonotone(bs[0], r1, r2, after - bs[0].count);
    } else if after as real >= r1 {
      InsideBucket(bs[0], r1, cumulative);
      var i := LocateBounds(bs[1..], r2, after);
      assert bs[0].upper <= bs[i + 1].lower;
    } else {
      LocateMonotone(bs[1..], r1, r2, after);
    }
  }

  ghost predicate Framed(bs: seq<Bucket>, lo: real, hi: real) {
    forall i :: 0 <= i < |bs| ==> lo <= bs[i].lower && bs[i].upper <= hi
  }

  /** `q` is an estimate, from the bucket of `bs` that `rank` falls in. */
  ghost predicate FallsIn(q: Quantile, bs: seq<Bucket>, rank: real) {
    q.Estimate? && exists i :: Chosen(bs, rank, 0, i, q.x)
  }

  /** Both facts at once. */
  lemma WalkIsMonotone(bs: seq<Bucket>, r1: real, r2: real)
    requires InOrder(bs) && bs != [] && 0.0 <= r1 <= r2 <= Total(bs, 0) as real
    ensures FallsIn(Estimated(bs, r1), bs, r1) && FallsIn(Estimated(bs, r2), bs, r2)
    ensures Estimated(bs, r1).x <= Estimated(bs, r2).x
  {
    LocateMonotone(bs, r1, r2, 0);
    var i := LocateBounds(bs, r1, 0);
    var j := LocateBounds(bs, r2, 0);
  }

  // ----- explicit buckets

  function MinReal(a: real, b: real): real { if a <= b then a else b }

  /** Bucket `i` of an explicit histogram; past the bounds it is the overflow bucket. */
  function ExplicitBucket(bounds: seq<real>, counts: seq<u64>, i: nat): Bucket
    requires bounds != [] && i < |counts|
  {
    var n := |bounds|;
    if i >= n then Bucket(bounds[n - 1], bounds[n - 1], counts[i])
    else Bucket(if i == 0 then MinReal(bounds[0], 0.0) else bounds[i - 1], bounds[i], counts[i])
  }

  function Explicit(bounds: seq<real>, counts: seq<u64>, i: nat): seq<Bucket>
    requires bounds != [] && i <= |counts|
    decreases |counts| - i
  {
    if i == |counts| then [] else [ExplicitBucket(bounds, counts, i)] + Explicit(bounds, counts, i + 1)
  }

  function SumFrom(counts: seq<u64>, i: nat, start: u64): u64
    requires i <= |counts|
    decreases |counts| - i
  {
    if i == |counts| then start else SumFrom(counts, i + 1, SaturatingAdd(start, counts[i]))
  }

  method SumCounts(counts: seq<u64>, start: u64) returns (total: u64)
    ensures total == SumFrom(counts, 0, start)
  {
    total := start;
    for i := 0 to |counts|
      invariant SumFrom(counts, 0, start) == SumFrom(counts, i, total)
    {
      total := SaturatingAdd(total, counts[i]);
    }
  }

  /** What `histogram_quantile` returns. */
  function ExplicitQuantile(phi: Phi, bounds: seq<real>, counts: seq<u64>): Quantile {
    if phi.PhiNaN? then NotANumber
    else if phi.p < 0.0 then NegInfinity
    else if phi.p > 1.0 then PosInfinity
    else
      var total := SumFrom(counts, 0, 0);
      if total == 0 then NotANumber
      else if bounds == [] then PosInfinity
      else Estimated(Explicit(bounds, counts, 0), Rank(phi.p, total))
  }

  function Rank(p: real, total: u64): real {
    p * total as real
  }

  function Estimated(bs: seq<Bucket>, rank: real): Quantile {
    match Locate(bs, rank, 0)
    case Some(x) => Estimate(x)
    case None => NotANumber
  }

  lemma RankWithinTotal(p: real, total: u64)
    requires 0.0 <= p <= 1.0
    ensures 0.0 <= Rank(p, total) <= total as real
  {
    var t := total as real;
    assert (1.0 - p) * t >= 0.0 && t - p * t == (1.0 - p) * t;
  }

  /** The first bucket whose cumulative count reaches the rank. The loop cannot run off the end, and
      the count of the bucket it stops in never exceeds the cumulative count, saturated or not. */
  method FindBucket(counts: seq<u64>, rank: real, ghost bounds: seq<real>) returns (b: nat, cumulative: u64)
    requires SumFrom(counts, 0, 0) > 0 && 0.0 <= rank <= SumFrom(counts, 0, 0) as real
    ensures b < |counts| && counts[b] <= cumulative
    ensures bounds != [] ==>
      Locate(Explicit(bounds, counts, 0), rank, 0)
        == Some(Inside(ExplicitBucket(bounds, counts, b), rank, cumulative - counts[b]))
  {
    cumulative := 0;
    b := 0;
    while true
      invariant b < |counts|
      invariant SumFrom(counts, b, cumulative) == SumFrom(counts, 0, 0)
      invariant bounds != [] ==>
        Locate(Explicit(bounds, counts, 0), rank, 0) == Locate(Explicit(bounds, counts, b), rank, cumulative)
      decreases |counts| - b
    {
      cumulative := SaturatingAdd(cumulative, counts[b]);
      if cumulative as real >= rank {
        return;
      }
      b := b + 1;
    }
  }

  lemma FlatBucket(x: real, rank: real, before: u64, count: u64)
    ensures Inside(Bucket(x, x, count), rank, before) == x
  {
  }

  method HistogramQuantile(phi: Phi, bounds: seq<real>, counts: seq<u64>) returns (q: Quantile)
    ensures q == ExplicitQuantile(phi, bounds, counts)
  {
    if phi.PhiNaN? {
      return NotANumber;
    }
    if phi.p < 0.0 {
      return NegInfinity;
    }
    if phi.p > 1.0 {
      return PosInfinity;
    }
    var total := SumCounts(counts, 0);
    if total == 0 {
      return NotANumber;
    }
    var rank := Rank(phi.p, total);
    RankWithinTotal(phi.p, total);
    var b, cumulative := FindBucket(counts, rank, bounds);
    if bounds == [] {
      return PosInfinity;
    }
    var x := Interpolate(bounds, counts, b, rank, cumulative);
    return Estimate(x);
  }

  /** The estimate in bucket `b`; past the finite buckets it is clamped to the largest bound. */
  method Interpolate(bounds: seq<real>, counts: seq<u64>, b: nat, rank: real, cumulative: u64) returns (x: real)
    requires bounds != [] && b < |counts| && counts[b] <= cumulative
    ensures x == Inside(ExplicitBucket(bounds, counts, b), rank, cumulative - counts[b])
  {
    var n := |bounds|;
    if b >= n {
      FlatBucket(bounds[n - 1], rank, cumulative - counts[b], counts[b]);
      return bounds[n - 1];
    }
    var upper := bounds[b];
    var lower := if b == 0 then MinReal(bounds[0], 0.0) else bounds[b - 1];
    var inBucket := counts[b];
    if inBucket == 0 {
      return upper;
    }
    var before := cumulative - inBucket;
    return lower + (upper - lower) * ((rank - before as real) / inBucket as real);
  }

  // ----- what the explicit estimate promises

  ghost predicate AscendingBounds(bounds: seq<real>) {
    forall i, j :: 0 <= i < j < |bounds| ==> bounds[i] <= bounds[j]
  }

  lemma {:induction false} ExplicitLength(bounds: seq<real>, counts: seq<u64>, i: nat)
    requires bounds != [] && i <= |counts|
    ensures |Explicit(bounds, counts, i)| == |counts| - i
    decreases |counts| - i
  {
    if i < |counts| {
      ExplicitLength(bounds, counts, i + 1);
    }
  }

  lemma {:induction false} ExplicitElement(bounds: seq<real>, counts: seq<u64>, i: nat, k: nat)
    requires bounds != [] && i + k < |counts|
    ensures k < |Explicit(bounds, counts, i)|
    ensures Explicit(bounds, counts, i)[k] == ExplicitBucket(bounds, counts, i + k)
    decreases k
  {
    ExplicitLength(bounds, counts, i);
    if k > 0 {
      ExplicitElement(bounds, counts, i + 1, k - 1);
    }
  }

  lemma {:induction false} ExplicitAt(bounds: seq<real>, counts: seq<u64>)
    requires bounds != []
    ensures |Explicit(bounds, counts, 0)| == |counts|
    ensures forall k :: 0 <= k < |counts| ==> Explicit(bounds, counts, 0)[k] == ExplicitBucket(bounds, counts, k)
  {
    ExplicitLength(bounds, counts, 0);
    forall k | 0 <= k < |counts|
      ensures Explicit(bounds, counts, 0)[k] == ExplicitBucket(bounds, counts, k)
    {
      ExplicitElement(bounds, counts, 0, k);
    }
  }

  lemma {:induction false} ExplicitTotal(bounds: seq<real>, counts: seq<u64>, i: nat, start: u64)
    requires bounds != [] && i <= |counts|
    ensures Total(Explicit(bounds, counts, i), start) == SumFrom(counts, i, start)
    decreases |counts| - i
  {
    if i < |counts| {
      var bs := Explicit(bounds, counts, i);
      ExplicitTotal(bounds, counts, i + 1, SaturatingAdd(start, counts[i]));
      assert bs[1..] == Explicit(bounds, counts, i + 1);
    }
  }

  lemma BucketEdges(bounds: seq<real>, counts: seq<u64>, i: nat)
    requires bounds != [] && AscendingBounds(bounds) && i < |counts|
    ensures var b := ExplicitBucket(bounds, counts, i);
      MinReal(bounds[0], 0.0) <= b.lower <= b.upper <= bounds[|bounds| - 1]
  {
  }

  lemma BucketsOrdered(bounds: seq<real>, counts: seq<u64>, i: nat, j: nat)
    requires bounds != [] && AscendingBounds(bounds) && i < j < |counts|
    ensures ExplicitBucket(bounds, counts, i).upper <= ExplicitBucket(bounds, counts, j).lower
  {
  }

  lemma ExplicitInOrder(bounds: seq<real>, counts: seq<u64>)
    requires bounds != [] && AscendingBounds(bounds)
    ensures var bs := Explicit(bounds, counts, 0);
      InOrder(bs) && Framed(bs, MinReal(bounds[0], 0.0), bounds[|bounds| - 1])
  {
    ExplicitAt(bounds, counts);
    var bs := Explicit(bounds, counts, 0);
    forall i | 0 <= i < |bs|
      ensures bs[i] == ExplicitBucket(bounds, counts, i)
      ensures MinReal(bounds[0], 0.0) <= bs[i].lower <= bs[i].upper <= bounds[|bounds| - 1]
    {
      assert bs[i] == ExplicitBucket(bounds, counts, i);
      BucketEdges(bounds, counts, i);
    }
    forall i, j | 0 <= i < j < |bs|
      ensures bs[i].upper <= bs[j].lower
    {
      BucketsOrdered(bounds, counts, i, j);
    }
  }

  lemma RankMonotone(p1: real, p2: real, total: u64)
    requires 0.0 <= p1 <= p2 <= 1.0
    ensures 0.0 <= Rank(p1, total) <= Rank(p2, total) <= total as real
  {
    RankWithinTotal(p1, total);
    RankWithinTotal(p2, total);
    assert (p2 - p1) * total as real >= 0.0;
  }

  /** For ascending bounds and a histogram that counted something: the estimate lies in the bucket its
      rank falls in, so between the first bucket's lower edge and the last bound, and never falls as the
      quantile rises. */
  lemma ExplicitMonotone(p1: real, p2: real, bounds: seq<real>, counts: seq<u64>)
    requires 0.0 <= p1 <= p2 <= 1.0 && bounds != [] && AscendingBounds(bounds) && SumFrom(counts, 0, 0) > 0
    ensures var a, b := ExplicitQuantile(Phi(p1), bounds, counts), ExplicitQuantile(Phi(p2), bounds, counts);
      && FallsIn(a, Explicit(bounds, counts, 0), Rank(p1, SumFrom(counts, 0, 0)))
      && FallsIn(b, Explicit(bounds, counts, 0), Rank(p2, SumFrom(counts, 0, 0)))
      && MinReal(bounds[0], 0.0) <= a.x <= b.x <= bounds[|bounds| - 1]
  {
    var bs, total := Explicit(bounds, counts, 0), SumFrom(counts, 0, 0);
    ExplicitInOrder(bounds, counts);
    ExplicitAt(bounds, counts);
    ExplicitTotal(bounds, counts, 0, 0);
    RankMonotone(p1, p2, total);
    WalkIsMonotone(bs, Rank(p1, total), Rank(p2, total));
  }

  // ----- exponential buckets

  /** An exponential histogram. `bound(i)` is `base^i` for whatever base the scale gives. */
  datatype Exponential = Exponential(
    bound: int -> real,
    zero: u64,
    posOffset: int,
    pos: seq<u64>,
    negOffset: int,
    neg: seq<u64>)

  ghost predicate GrowingBounds(h: Exponential) {
    && (forall i: int :: h.bound(i) > 0.0)
    && (forall i: int, j: int :: i < j ==> h.bound(i) < h.bound(j))
  }

  function NegEdge(h: Exponential, i: nat): real { -h.bound(h.negOffset + i) }

  function PosEdge(h: Exponential, i: nat): real { h.bound(h.posOffset + i) }

  function NegBucket(h: Exponential, i: nat): Bucket
    requires i < |h.neg|
  {
    Bucket(NegEdge(h, i + 1), NegEdge(h, i), h.neg[i])
  }

  function PosBucket(h: Exponential, i: nat): Bucket
    requires i < |h.pos|
  {
    Bucket(PosEdge(h, i), PosEdge(h, i + 1), h.pos[i])
  }

  /** Negative buckets below index `n`, most negative first, empty ones left out. */
  function NegBelow(h: Exponential, n: nat): seq<Bucket>
    requires n <= |h.neg|
  {
    if n == 0 then []
    else (if h.neg[n - 1] == 0 then [] else [NegBucket(h, n - 1)]) + NegBelow(h, n - 1)
  }

  /** Positive buckets from index `i` up, empty ones left out. */
  function PosFrom(h: Exponential, i: nat): seq<Bucket>
    requires i <= |h.pos|
    decreases |h.pos| - i
  {
    if i == |h.pos| then []
    else (if h.pos[i] == 0 then [] else [PosBucket(h, i)]) + PosFrom(h, i + 1)
  }

  function ZeroOn(h: Exponential): seq<Bucket> {
    (if h.zero == 0 then [] else [Bucket(0.0, 0.0, h.zero)]) + PosFrom(h, 0)
  }

  /** Every non-empty bucket in one list, in value order. */
  function Flat(h: Exponential): seq<Bucket> {
    NegBelow(h, |h.neg|) + ZeroOn(h)
  }

  function ExpTotal(h: Exponential): u64 {
    SumFrom(h.neg, 0, SumFrom(h.pos, 0, h.zero))
  }

  /** What `exp_histogram_quantile` returns: the one-pass quantile over the flat list. */
  function ExpQuantile(phi: Phi, h: Exponential): Quantile {
    if phi.PhiNaN? then NotANumber
    else if phi.p < 0.0 then NegInfinity
    else if phi.p > 1.0 then PosInfinity
    else if ExpTotal(h) == 0 then NotANumber
    else Estimated(Flat(h), Rank(phi.p, ExpTotal(h)))
  }

  // ----- saturating sums do not depend on order

  function PlainSum(counts: seq<u64>): nat {
    if counts == [] then 0 else counts[0] + PlainSum(counts[1..])
  }

  function CountsOf(bs: seq<Bucket>): seq<u64> {
    seq(|bs|, i requires 0 <= i < |bs| => bs[i].count)
  }

  lemma {:induction false} TotalIsSum(bs: seq<Bucket>, start: u64)
    ensures Total(bs, start) == Min(U64_MAX, start + PlainSum(CountsOf(bs)))
  {
    if bs != [] {
      TotalIsSum(bs[1..], SaturatingAdd(start, bs[0].count));
      assert CountsOf(bs)[1..] == CountsOf(bs[1..]);
    }
  }

  lemma {:induction false} SumFromIsSum(counts: seq<u64>, i: nat, start: u64)
    requires i <= |counts|
    ensures SumFrom(counts, i, start) == Min(U64_MAX, start + PlainSum(counts[i..]))
    decreases |counts| - i
  {
    if i < |counts| {
      SumFromIsSum(counts, i + 1, SaturatingAdd(start, counts[i]));
      assert counts[i..][1..] == counts[i + 1..];
    }
  }

  lemma {:induction false} PlainSumConcat(xs: seq<u64>, ys: seq<u64>)
    ensures PlainSum(xs + ys) == PlainSum(xs) + PlainSum(ys)
  {
    if xs == [] {
      assert xs + ys == ys;
    } else {
      PlainSumConcat(xs[1..], ys);
      assert (xs + ys)[1..] == xs[1..] + ys;
    }
  }

  lemma CountsOfConcat(xs: seq<Bucket>, ys: seq<Bucket>)
    ensures CountsOf(xs + ys) == CountsOf(xs) + CountsOf(ys)
  {
  }

  /** The count of an optional bucket put before others. */
  lemma {:induction false} SumWithHead(head: seq<Bucket>, count: u64, rest: seq<Bucket>)
    requires if count == 0 then head == [] else |head| == 1 && head[0].count == count
    ensures PlainSum(CountsOf(head + rest)) == count + PlainSum(CountsOf(rest))
  {
    if count == 0 {
      assert head + rest == rest;
    } else {
      assert CountsOf(head + rest)[1..] == CountsOf(rest);
    }
  }

  lemma {:induction false} SumOfNeg(h: Exponential, n: nat)
    requires n <= |h.neg|
    ensures PlainSum(CountsOf(NegBelow(h, n))) == PlainSum(h.neg[..n])
  {
    if n > 0 {
      SumOfNeg(h, n - 1);
      SumWithHead(if h.neg[n - 1] == 0 then [] else [NegBucket(h, n - 1)], h.neg[n - 1], NegBelow(h, n - 1));
      assert h.neg[..n] == h.neg[..n - 1] + [h.neg[n - 1]];
      PlainSumConcat(h.neg[..n - 1], [h.neg[n - 1]]);
      assert PlainSum([h.neg[n - 1]]) == h.neg[n - 1];
    }
  }

  lemma {:induction false} SumOfPos(h: Exponential, i: nat)
    requires i <= |h.pos|
    ensures PlainSum(CountsOf(PosFrom(h, i))) == PlainSum(h.pos[i..])
    decreases |h.pos| - i
  {
    if i < |h.pos| {
      SumOfPos(h, i + 1);
      SumWithHead(if h.pos[i] == 0 then [] else [PosBucket(h, i)], h.pos[i], PosFrom(h, i + 1));
      assert h.pos[i..][1..] == h.pos[i + 1..];
    }
  }

  /** The total the source folds up is the total of the flat list. */
  lemma FlatTotal(h: Exponential)
    ensures Total(Flat(h), 0) == ExpTotal(h)
  {
    var zero := if h.zero == 0 then [] else [Bucket(0.0, 0.0, h.zero)];
    TotalIsSum(Flat(h), 0);
    SumFromIsSum(h.pos, 0, h.zero);
    SumFromIsSum(h.neg, 0, SumFrom(h.pos, 0, h.zero));
    SumOfNeg(h, |h.neg|);
    SumOfPos(h, 0);
    assert h.neg[..|h.neg|] == h.neg && h.neg[0..] == h.neg && h.pos[0..] == h.pos;
    CountsOfConcat(NegBelow(h, |h.neg|), ZeroOn(h));
    PlainSumConcat(CountsOf(NegBelow(h, |h.neg|)), CountsOf(ZeroOn(h)));
    SumWithHead(zero, h.zero, PosFrom(h, 0));
  }

  /** A bucket put in front of buckets that start where it ends. */
  lemma FrameCons(b: Bucket, bs: seq<Bucket>, hi: real)
    requires InOrder(bs) && Framed(bs, b.upper, hi) && b.lower <= b.upper <= hi
    ensures InOrder([b] + bs) && Framed([b] + bs, b.lower, hi)
  {
  }

  lemma FrameWider(bs: seq<Bucket>, lo: real, mid: real, hi: real)
    requires Framed(bs, mid, hi) && lo <= mid
    ensures Framed(bs, lo, hi)
  {
  }

  predicate NegEdgesFit(h: Exponential, i: nat) { NegEdge(h, i + 1) <= NegEdge(h, i) <= 0.0 }

  predicate PosEdgesFit(h: Exponential, i: nat, hi: real) { PosEdge(h, i) <= PosEdge(h, i + 1) <= hi }

  lemma NegEdgesGrow(h: Exponential, i: nat)
    requires GrowingBounds(h)
    ensures NegEdgesFit(h, i)
  {
  }

  lemma PosEdgesGrow(h: Exponential, i: nat, j: nat)
    requires GrowingBounds(h) && i <= j
    ensures 0.0 <= PosEdge(h, i) <= PosEdge(h, j)
  {
  }

  lemma {:induction false} NegInOrder(h: Exponential, n: nat)
    requires n <= |h.neg| && forall i :: 0 <= i < n ==> NegEdgesFit(h, i)
    ensures InOrder(NegBelow(h, n)) && Framed(NegBelow(h, n), NegEdge(h, n), 0.0)
  {
    if n > 0 {
      assert NegEdgesFit(h, n - 1);
      var rest := NegBelow(h, n - 1);
      NegInOrder(h, n - 1);
      if h.neg[n - 1] == 0 {
        assert NegBelow(h, n) == rest;
        FrameWider(rest, NegEdge(h, n), NegEdge(h, n - 1), 0.0);
      } else {
        FrameCons(NegBucket(h, n - 1), rest, 0.0);
      }
    }
  }

  lemma {:induction false} PosInOrder(h: Exponential, i: nat, hi: real)
    requires i <= |h.pos| && forall k :: i <= k < |h.pos| ==> PosEdgesFit(h, k, hi)
    ensures InOrder(PosFrom(h, i)) && Framed(PosFrom(h, i), PosEdge(h, i), hi)
    decreases |h.pos| - i
  {
    if i < |h.pos| {
      assert PosEdgesFit(h, i, hi);
      var rest := PosFrom(h, i + 1);
      PosInOrder(h, i + 1, hi);
      if h.pos[i] == 0 {
        assert PosFrom(h, i) == rest;
        FrameWider(rest, PosEdge(h, i), PosEdge(h, i + 1), hi);
      } else {
        FrameCons(PosBucket(h, i), rest, hi);
      }
    }
  }

  lemma InOrderConcat(xs: seq<Bucket>, ys: seq<Bucket>, middle: real)
    requires InOrder(xs) && InOrder(ys)
    requires forall i :: 0 <= i < |xs| ==> xs[i].upper <= middle
    requires forall i :: 0 <= i < |ys| ==> middle <= ys[i].lower
    ensures InOrder(xs + ys)
  {
  }

  lemma {:induction false} NegativesInOrder(h: Exponential)
    requires GrowingBounds(h)
    ensures InOrder(NegBelow(h, |h.neg|)) && Framed(NegBelow(h, |h.neg|), NegEdge(h, |h.neg|), 0.0)
  {
    forall i | 0 <= i < |h.neg|
      ensures NegEdgesFit(h, i)
    {
      NegEdgesGrow(h, i);
    }
    NegInOrder(h, |h.neg|);
  }

  lemma {:induction false} PositivesInOrder(h: Exponential)
    requires GrowingBounds(h)
    ensures InOrder(PosFrom(h, 0)) && Framed(PosFrom(h, 0), 0.0, PosEdge(h, |h.pos|))
  {
    var hi := PosEdge(h, |h.pos|);
    forall k | 0 <= k < |h.pos|
      ensures PosEdgesFit(h, k, hi)
    {
      PosEdgesGrow(h, k, k + 1);
      PosEdgesGrow(h, k + 1, |h.pos|);
    }
    PosInOrder(h, 0, hi);
    PosEdgesGrow(h, 0, 0);
    FrameWider(PosFrom(h, 0), 0.0, PosEdge(h, 0), hi);
  }

  lemma {:induction false} FlatInOrder(h: Exponential)
    requires GrowingBounds(h)
    ensures InOrder(Flat(h))
  {
    var zero := if h.zero == 0 then [] else [Bucket(0.0, 0.0, h.zero)];
    NegativesInOrder(h);
    PositivesInOrder(h);
    InOrderConcat(zero, PosFrom(h, 0), 0.0);
    InOrderConcat(NegBelow(h, |h.neg|), ZeroOn(h), 0.0);
  }

  /** The exponential estimate never falls as the quantile rises, always lies in the non-empty bucket its
      rank falls in, and never needs the fallback after the walk. */
  lemma ExponentialMonotone(p1: real, p2: real, h: Exponential)
    requires 0.0 <= p1 <= p2 <= 1.0 && GrowingBounds(h) && ExpTotal(h) > 0
    ensures var a, b := ExpQuantile(Phi(p1), h), ExpQuantile(Phi(p2), h);
      && FallsIn(a, Flat(h), Rank(p1, ExpTotal(h))) && FallsIn(b, Flat(h), Rank(p2, ExpTotal(h)))
      && a.x <= b.x
  {
    var bs := Flat(h);
    FlatInOrder(h);
    FlatTotal(h);
    assert bs != [];
    RankMonotone(p1, p2, ExpTotal(h));
    WalkIsMonotone(bs, Rank(p1, ExpTotal(h)), Rank(p2, ExpTotal(h)));
  }

  // ----- the three-phase walk

  lemma {:induction false} LocateOfHead(b: Bucket, rest: seq<Bucket>, rank: real, cumulative: u64)
    ensures var after := SaturatingAdd(cumulative, b.count);
      Locate([b] + rest, rank, cumulative) ==
        if after as real >= rank then Some(Inside(b, rank, after - b.count)) else Locate(rest, rank, after)
  {
    assert ([b] + rest)[1..] == rest;
  }

  lemma FoundInTotal(bs: seq<Bucket>, rank: real, cumulative: u64)
    requires bs != [] && rank <= Total(bs, cumulative) as real
    ensures Locate(bs, rank, cumulative).Some?
  {
    var after := SaturatingAdd(cumulative, bs[0].count);
    if |bs| == 1 {
      assert bs[1..] == [];
      assert Total(bs, cumulative) == after;
    } else if (after as real) < rank {
      FoundInTotal(bs[1..], rank, after);
    }
  }

  lemma {:induction false} NegStep(h: Exponential, i: nat)
    requires i < |h.neg|
    ensures NegBelow(h, i + 1) + ZeroOn(h) ==
      if h.neg[i] == 0 then NegBelow(h, i) + ZeroOn(h) else [NegBucket(h, i)] + (NegBelow(h, i) + ZeroOn(h))
  {
    if h.neg[i] == 0 {
      assert NegBelow(h, i + 1) == NegBelow(h, i);
    } else {
      ConcatAssociates([NegBucket(h, i)], NegBelow(h, i), ZeroOn(h));
    }
  }

  /** Negative buckets, most negative first. */
  method WalkNegative(h: Exponential, rank: real) returns (hit: Option<real>, cumulative: u64)
    ensures hit.Some? ==> Locate(Flat(h), rank, 0) == hit
    ensures hit.None? ==> Locate(Flat(h), rank, 0) == Locate(ZeroOn(h), rank, cumulative)
  {
    cumulative := 0;
    var i := |h.neg|;
    while i > 0
      invariant 0 <= i <= |h.neg|
      invariant Locate(Flat(h), rank, 0) == Locate(NegBelow(h, i) + ZeroOn(h), rank, cumulative)
    {
      i := i - 1;
      var c := h.neg[i];
      NegStep(h, i);
      if c != 0 {
        var b := NegBucket(h, i);
        LocateOfHead(b, NegBelow(h, i) + ZeroOn(h), rank, cumulative);
        cumulative := SaturatingAdd(cumulative, c);
        if cumulative as real >= rank {
          return Some(Inside(b, rank, cumulative - c)), cumulative;
        }
      }
    }
    assert [] + ZeroOn(h) == ZeroOn(h);
    hit := None;
  }

  /** Positive buckets, lowest index first. */
  method WalkPositive(h: Exponential, rank: real, start: u64) returns (hit: Option<real>)
    ensures hit == Locate(PosFrom(h, 0), rank, start)
  {
    var cumulative := start;
    for i := 0 to |h.pos|
      invariant Locate(PosFrom(h, 0), rank, start) == Locate(PosFrom(h, i), rank, cumulative)
    {
      var c := h.pos[i];
      if c == 0 {
        assert PosFrom(h, i) == PosFrom(h, i + 1);
      } else {
        LocateOfHead(PosBucket(h, i), PosFrom(h, i + 1), rank, cumulative);
        cumulative := SaturatingAdd(cumulative, c);
        if cumulative as real >= rank {
          return Some(Inside(PosBucket(h, i), rank, cumulative - c));
        }
      }
    }
    hit := None;
  }

  method ExpHistogramQuantile(phi: Phi, h: Exponential) returns (q: Quantile)
    ensures q == ExpQuantile(phi, h)
  {
    if phi.PhiNaN? {
      return NotANumber;
    }
    if phi.p < 0.0 {
      return NegInfinity;
    }
    if phi.p > 1.0 {
      return PosInfinity;
    }
    var positive := SumCounts(h.pos, h.zero);
    var total := SumCounts(h.neg, positive);
    if total == 0 {
      return NotANumber;
    }
    var rank := Rank(phi.p, total);
    RankWithinTotal(phi.p, total);
    FlatTotal(h);
    FoundInTotal(Flat(h), rank, 0);
    var hit, cumulative := WalkNegative(h, rank);
    if hit.Some? {
      return Estimate(hit.value);
    }
    if h.zero > 0 {
      LocateOfHead(Bucket(0.0, 0.0, h.zero), PosFrom(h, 0), rank, cumulative);
      FlatBucket(0.0, rank, SaturatingAdd(cumulative, h.zero) - h.zero, h.zero);
      cumulative := SaturatingAdd(cumulative, h.zero);
      if cumulative as real >= rank {
        return Estimate(0.0);
      }
    } else {
      assert [] + PosFrom(h, 0) == PosFrom(h, 0);
    }
    hit := WalkPositive(h, rank, cumulative);
    return Estimate(hit.value);
  }
}
