/** What the two quantile estimates are, said of the histograms alone
    (crates/imbh-core/src/histogram.rs). */
module Quantiles {
  import opened Basics
  import opened Histograms

  /** A sum as `u64` keeps it, saturating. */
  function Sat(n: nat): u64 { Min(n, U64_MAX) }

  /** `x` divides a bucket from `lo` to `hi`, holding `count` observations after `earlier` others, as `rank`
      divides them. */
  predicate Divides(x: real, lo: real, hi: real, count: u64, earlier: nat, rank: real) {
    (x - lo) * count as real == (hi - lo) * (rank - Sat(earlier + count) as real + count as real)
  }

  /** The rank of the quantile among `total` observations. */
  function Position(p: real, total: u64): real { p * total as real }

  lemma PositionIsRank(p: real, total: u64)
    ensures Position(p, total) == Rank(p, total)
  {
  }

  // ----- the explicit estimate

  /** Bucket `i` is the first whose cumulative count reaches the rank, and `x` is the estimate in it: the
      last bound past the bounds, the bucket's bound if it is empty, and else the point that divides it. */
  ghost predicate ExplicitAnswer(bounds: seq<real>, counts: seq<u64>, rank: real, i: nat, x: real)
    requires bounds != []
  {
    && i < |counts|
    && (i > 0 ==> Sat(PlainSum(counts[..i])) as real < rank)
    && rank <= Sat(PlainSum(counts[..i]) + counts[i]) as real
    && if i >= |bounds| then x == bounds[|bounds| - 1]
       else if counts[i] == 0 then x == bounds[i]
       else
         var lo := if i > 0 then bounds[i - 1] else if bounds[0] < 0.0 then bounds[0] else 0.0;
         Divides(x, lo, bounds[i], counts[i], PlainSum(counts[..i]), rank)
  }

  ghost predicate ExplicitEstimate(bounds: seq<real>, counts: seq<u64>, rank: real, x: real)
    requires bounds != []
  {
    exists i: nat :: ExplicitAnswer(bounds, counts, rank, i, x)
  }

  /** What `histogram_quantile` is to return, in every case. */
  ghost predicate ExplicitMeans(phi: Phi, bounds: seq<real>, counts: seq<u64>, q: Quantile) {
    match phi
    case PhiNaN => q == NotANumber
    case Phi(p) =>
      var total := Sat(PlainSum(counts));
      if p < 0.0 then q == NegInfinity
      else if p > 1.0 then q == PosInfinity
      else if total == 0 then q == NotANumber
      else if bounds == [] then q == PosInfinity
      else q.Estimate? && ExplicitEstimate(bounds, counts, Position(p, total), q.x)
  }

  // ----- the exponential estimate

  /** The rank falls among `count` observations that come after `earlier` others. */
  predicate FallsAmong(rank: real, earlier: nat, count: u64) {
    && count > 0
    && (earlier == 0 || Sat(earlier) as real < rank)
    && rank <= Sat(earlier + count) as real
  }

  /** The estimate in a negative bucket; the ones of larger index come before it. */
  predicate NegAnswer(h: Exponential, rank: real, i: nat, x: real) {
    && i < |h.neg|
    && var earlier, k := PlainSum(h.neg[i + 1..]), h.negOffset + i;
       && FallsAmong(rank, earlier, h.neg[i])
       && Divides(x, -h.bound(k + 1), -h.bound(k), h.neg[i], earlier, rank)
  }

  predicate ZeroAnswer(h: Exponential, rank: real, x: real) {
    FallsAmong(rank, PlainSum(h.neg), h.zero) && x == 0.0
  }

  /** The estimate in a positive bucket; the negative ones, zero and the ones of smaller index come before. */
  predicate PosAnswer(h: Exponential, rank: real, i: nat, x: real) {
    && i < |h.pos|
    && var earlier, k := PlainSum(h.neg) + h.zero + PlainSum(h.pos[..i]), h.posOffset + i;
       && FallsAmong(rank, earlier, h.pos[i])
       && Divides(x, h.bound(k), h.bound(k + 1), h.pos[i], earlier, rank)
  }

  ghost predicate ExpAnswer(h: Exponential, rank: real, x: real) {
    || (exists i: nat :: NegAnswer(h, rank, i, x))
    || ZeroAnswer(h, rank, x)
    || (exists i: nat :: PosAnswer(h, rank, i, x))
  }

  /** What `exp_histogram_quantile` is to return, in every case. */
  ghost predicate ExponentialMeans(phi: Phi, h: Exponential, q: Quantile) {
    match phi
    case PhiNaN => q == NotANumber
    case Phi(p) =>
      var total := Sat(PlainSum(h.neg) + h.zero + PlainSum(h.pos));
      if p < 0.0 then q == NegInfinity
      else if p > 1.0 then q == PosInfinity
      else if total == 0 then q == NotANumber
      else q.Estimate? && ExpAnswer(h, Position(p, total), q.x)
  }

  // ----- interpolation divides

  lemma MulSwap(a: real, f: real, c: real)
    ensures a * f * c == a * (f * c)
  {
  }

  lemma AlongDivides(lo: real, hi: real, y: real, c: real)
    requires c > 0.0
    ensures (Along(lo, hi, Share(y, c)) - lo) * c == (hi - lo) * y
  {
    var f := Share(y, c);
    assert f * c == y;
    MulSwap(hi - lo, f, c);
    assert Along(lo, hi, f) - lo == (hi - lo) * f;
  }

  lemma SatAdd(earlier: nat, count: u64)
    ensures SaturatingAdd(Sat(earlier), count) == Sat(earlier + count)
  {
  }

  /** The estimate inside a non-empty bucket divides it. */
  lemma InsideDivides(b: Bucket, rank: real, earlier: nat)
    requires b.count > 0
    ensures Divides(Inside(b, rank, Sat(earlier + b.count) - b.count), b.lower, b.upper, b.count, earlier, rank)
  {
    var before := Sat(earlier + b.count) - b.count;
    AlongDivides(b.lower, b.upper, rank - before as real, b.count as real);
  }

  // ----- the explicit walk

  lemma {:induction false} SumUpTo(counts: seq<u64>, i: nat)
    requires i < |counts|
    ensures PlainSum(counts[..i + 1]) == PlainSum(counts[..i]) + counts[i]
  {
    assert counts[..i + 1] == counts[..i] + [counts[i]];
    PlainSumConcat(counts[..i], [counts[i]]);
    assert [counts[i]][1..] == [];
  }

  lemma {:induction false} ExplicitHere(bounds: seq<real>, counts: seq<u64>, i: nat, rank: real)
    requires bounds != [] && i < |counts| && (i > 0 ==> Sat(PlainSum(counts[..i])) as real < rank)
    requires rank <= Sat(PlainSum(counts[..i]) + counts[i]) as real
    ensures var earlier := PlainSum(counts[..i]);
      var x := Inside(ExplicitBucket(bounds, counts, i), rank, Sat(earlier + counts[i]) - counts[i]);
      ExplicitAnswer(bounds, counts, rank, i, x)
  {
    var b, earlier := ExplicitBucket(bounds, counts, i), PlainSum(counts[..i]);
    if i >= |bounds| {
      FlatBucket(bounds[|bounds| - 1], rank, Sat(earlier + counts[i]) - counts[i], counts[i]);
    } else if counts[i] > 0 {
      InsideDivides(b, rank, earlier);
    }
  }

  lemma {:induction false} ExplicitWalk(bounds: seq<real>, counts: seq<u64>, i: nat, rank: real) returns (k: nat)
    requires bounds != [] && i <= |counts| && (i > 0 ==> Sat(PlainSum(counts[..i])) as real < rank)
    requires rank <= Sat(PlainSum(counts)) as real && counts != []
    ensures var found := Locate(Explicit(bounds, counts, i), rank, Sat(PlainSum(counts[..i])));
      found.Some? && ExplicitAnswer(bounds, counts, rank, k, found.value)
    decreases |counts| - i
  {
    var earlier := PlainSum(counts[..i]);
    assert counts[..|counts|] == counts;
    if i == |counts| {
      assert false;
    } else {
      LocateOfHead(ExplicitBucket(bounds, counts, i), Explicit(bounds, counts, i + 1), rank, Sat(earlier));
      SatAdd(earlier, counts[i]);
      SumUpTo(counts, i);
      if rank <= Sat(earlier + counts[i]) as real {
        k := i;
        ExplicitHere(bounds, counts, i, rank);
      } else {
        k := ExplicitWalk(bounds, counts, i + 1, rank);
      }
    }
  }

  lemma {:induction false} ExplicitInRange(p: real, bounds: seq<real>, counts: seq<u64>)
    requires 0.0 <= p <= 1.0 && PlainSum(counts) > 0 && bounds != []
    ensures var q := Estimated(Explicit(bounds, counts, 0), Rank(p, Sat(PlainSum(counts))));
      q.Estimate? && ExplicitEstimate(bounds, counts, Rank(p, Sat(PlainSum(counts))), q.x)
  {
    RankWithinTotal(p, Sat(PlainSum(counts)));
    ExplicitFound(bounds, counts, Rank(p, Sat(PlainSum(counts))));
  }

  lemma {:induction false} CountsTotal(counts: seq<u64>)
    ensures SumFrom(counts, 0, 0) == Sat(PlainSum(counts))
  {
    SumFromIsSum(counts, 0, 0);
    assert counts[0..] == counts;
  }

  /** The explicit estimate is what the histogram says, for every input. */
  lemma {:induction false} ExplicitIsMeant(phi: Phi, bounds: seq<real>, counts: seq<u64>)
    ensures ExplicitMeans(phi, bounds, counts, ExplicitQuantile(phi, bounds, counts))
  {
    CountsTotal(counts);
    if phi.Phi? && 0.0 <= phi.p <= 1.0 && PlainSum(counts) > 0 && bounds != [] {
      ExplicitInRange(phi.p, bounds, counts);
      PositionIsRank(phi.p, Sat(PlainSum(counts)));
    }
  }

  lemma {:induction false} ExplicitFound(bounds: seq<real>, counts: seq<u64>, rank: real)
    requires bounds != [] && counts != [] && rank <= Sat(PlainSum(counts)) as real
    ensures var q := Estimated(Explicit(bounds, counts, 0), rank);
      q.Estimate? && ExplicitEstimate(bounds, counts, rank, q.x)
  {
    assert counts[..0] == [];
    var k := ExplicitWalk(bounds, counts, 0, rank);
  }

  // ----- the exponential walk

  /** What the walk has passed over before it goes on. */
  predicate Passed(rank: real, earlier: nat) { earlier == 0 || Sat(earlier) as real < rank }

  lemma {:induction false} SumFromTop(counts: seq<u64>, i: nat)
    requires i < |counts|
    ensures PlainSum(counts[i..]) == counts[i] + PlainSum(counts[i + 1..])
  {
    assert counts[i..][1..] == counts[i + 1..];
  }

  lemma {:induction false} NegHere(h: Exponential, n: nat, rank: real)
    requires n < |h.neg| && Passed(rank, PlainSum(h.neg[n + 1..]))
    requires h.neg[n] > 0 && rank <= Sat(PlainSum(h.neg[n..])) as real
    ensures var found := Locate(NegBelow(h, n + 1) + ZeroOn(h), rank, Sat(PlainSum(h.neg[n + 1..])));
      found.Some? && NegAnswer(h, rank, n, found.value)
  {
    var earlier := PlainSum(h.neg[n + 1..]);
    NegStep(h, n);
    SumFromTop(h.neg, n);
    LocateOfHead(NegBucket(h, n), NegBelow(h, n) + ZeroOn(h), rank, Sat(earlier));
    SatAdd(earlier, h.neg[n]);
    InsideDivides(NegBucket(h, n), rank, earlier);
  }

  lemma {:induction false} NegPast(h: Exponential, n: nat, rank: real)
    requires n < |h.neg| && Passed(rank, PlainSum(h.neg[n + 1..]))
    requires h.neg[n] == 0 || rank > Sat(PlainSum(h.neg[n..])) as real
    ensures Passed(rank, PlainSum(h.neg[n..]))
    ensures Locate(NegBelow(h, n + 1) + ZeroOn(h), rank, Sat(PlainSum(h.neg[n + 1..])))
      == Locate(NegBelow(h, n) + ZeroOn(h), rank, Sat(PlainSum(h.neg[n..])))
  {
    var earlier := PlainSum(h.neg[n + 1..]);
    NegStep(h, n);
    SumFromTop(h.neg, n);
    if h.neg[n] > 0 {
      LocateOfHead(NegBucket(h, n), NegBelow(h, n) + ZeroOn(h), rank, Sat(earlier));
      SatAdd(earlier, h.neg[n]);
    }
  }

  /** Either the rank falls in a negative bucket below `n`, or the walk goes on after all of them. */
  lemma {:induction false} NegWalk(h: Exponential, n: nat, rank: real) returns (i: nat)
    requires n <= |h.neg| && Passed(rank, PlainSum(h.neg[n..]))
    ensures var found := Locate(NegBelow(h, n) + ZeroOn(h), rank, Sat(PlainSum(h.neg[n..])));
      || (found.Some? && NegAnswer(h, rank, i, found.value))
      || (found == Locate(ZeroOn(h), rank, Sat(PlainSum(h.neg))) && Passed(rank, PlainSum(h.neg)))
    decreases n
  {
    i := 0;
    if n == 0 {
      assert [] + ZeroOn(h) == ZeroOn(h) && h.neg[0..] == h.neg;
    } else if h.neg[n - 1] > 0 && rank <= Sat(PlainSum(h.neg[n - 1..])) as real {
      NegHere(h, n - 1, rank);
      i := n - 1;
    } else {
      NegPast(h, n - 1, rank);
      i := NegWalk(h, n - 1, rank);
    }
  }

  lemma {:induction false} PosStep(h: Exponential, i: nat)
    requires i < |h.pos|
    ensures PosFrom(h, i) == if h.pos[i] == 0 then PosFrom(h, i + 1) else [PosBucket(h, i)] + PosFrom(h, i + 1)
  {
    assert [] + PosFrom(h, i + 1) == PosFrom(h, i + 1);
  }

  function BeforePos(h: Exponential, i: nat): nat
    requires i <= |h.pos|
  {
    PlainSum(h.neg) + h.zero + PlainSum(h.pos[..i])
  }

  lemma {:induction false} PosHere(h: Exponential, i: nat, rank: real)
    requires i < |h.pos| && Passed(rank, BeforePos(h, i))
    requires h.pos[i] > 0 && rank <= Sat(BeforePos(h, i + 1)) as real
    ensures var found := Locate(PosFrom(h, i), rank, Sat(BeforePos(h, i)));
      found.Some? && PosAnswer(h, rank, i, found.value)
  {
    var earlier := BeforePos(h, i);
    PosStep(h, i);
    SumUpTo(h.pos, i);
    LocateOfHead(PosBucket(h, i), PosFrom(h, i + 1), rank, Sat(earlier));
    SatAdd(earlier, h.pos[i]);
    InsideDivides(PosBucket(h, i), rank, earlier);
  }

  lemma {:induction false} PosPast(h: Exponential, i: nat, rank: real)
    requires i < |h.pos| && Passed(rank, BeforePos(h, i))
    requires h.pos[i] == 0 || rank > Sat(BeforePos(h, i + 1)) as real
    ensures Passed(rank, BeforePos(h, i + 1))
    ensures Locate(PosFrom(h, i), rank, Sat(BeforePos(h, i)))
      == Locate(PosFrom(h, i + 1), rank, Sat(BeforePos(h, i + 1)))
  {
    PosStep(h, i);
    SumUpTo(h.pos, i);
    if h.pos[i] > 0 {
      LocateOfHead(PosBucket(h, i), PosFrom(h, i + 1), rank, Sat(BeforePos(h, i)));
      SatAdd(BeforePos(h, i), h.pos[i]);
    }
  }

  /** The rank falls in a positive bucket from `i` on. */
  lemma {:induction false} PosWalk(h: Exponential, i: nat, rank: real) returns (k: nat)
    requires i <= |h.pos| && Passed(rank, BeforePos(h, i))
    requires rank <= Sat(BeforePos(h, |h.pos|)) as real && BeforePos(h, |h.pos|) > 0
    ensures var found := Locate(PosFrom(h, i), rank, Sat(BeforePos(h, i)));
      found.Some? && PosAnswer(h, rank, k, found.value)
    decreases |h.pos| - i
  {
    if i == |h.pos| {
      assert false;
    } else if h.pos[i] > 0 && rank <= Sat(BeforePos(h, i + 1)) as real {
      PosHere(h, i, rank);
      k := i;
    } else {
      PosPast(h, i, rank);
      k := PosWalk(h, i + 1, rank);
    }
  }

  lemma {:induction false} ZeroWalk(h: Exponential, rank: real)
    requires Passed(rank, PlainSum(h.neg))
    ensures var found := Locate(ZeroOn(h), rank, Sat(PlainSum(h.neg)));
      || (found.Some? && ZeroAnswer(h, rank, found.value))
      || (found == Locate(PosFrom(h, 0), rank, Sat(BeforePos(h, 0))) && Passed(rank, BeforePos(h, 0)))
  {
    assert h.pos[..0] == [];
    var earlier := PlainSum(h.neg);
    if h.zero == 0 {
      assert [] + PosFrom(h, 0) == PosFrom(h, 0);
    } else {
      LocateOfHead(Bucket(0.0, 0.0, h.zero), PosFrom(h, 0), rank, Sat(earlier));
      SatAdd(earlier, h.zero);
      FlatBucket(0.0, rank, Sat(earlier + h.zero) - h.zero, h.zero);
    }
  }

  lemma {:induction false} ExponentialFound(h: Exponential, rank: real)
    requires rank <= Sat(BeforePos(h, |h.pos|)) as real && BeforePos(h, |h.pos|) > 0
    ensures var q := Estimated(Flat(h), rank); q.Estimate? && ExpAnswer(h, rank, q.x)
  {
    assert h.neg[|h.neg|..] == [];
    var i := NegWalk(h, |h.neg|, rank);
    var found := Locate(Flat(h), rank, 0);
    if !(found.Some? && NegAnswer(h, rank, i, found.value)) {
      ZeroWalk(h, rank);
      if !(found.Some? && ZeroAnswer(h, rank, found.value)) {
        var k := PosWalk(h, 0, rank);
      }
    }
  }

  lemma {:induction false} ExponentialInRange(p: real, h: Exponential)
    requires 0.0 <= p <= 1.0 && ExpTotal(h) > 0
    ensures var q := Estimated(Flat(h), Rank(p, ExpTotal(h))); q.Estimate? && ExpAnswer(h, Rank(p, ExpTotal(h)), q.x)
  {
    ExpTotalIs(h);
    RankWithinTotal(p, ExpTotal(h));
    assert h.pos[..|h.pos|] == h.pos;
    ExponentialFound(h, Rank(p, ExpTotal(h)));
  }

  /** The exponential estimate is what the histogram says, for every input and any bucket bounds. */
  lemma {:induction false} ExponentialIsMeant(phi: Phi, h: Exponential)
    ensures ExponentialMeans(phi, h, ExpQuantile(phi, h))
  {
    ExpTotalIs(h);
    if phi.Phi? && 0.0 <= phi.p <= 1.0 && ExpTotal(h) > 0 {
      ExponentialInRange(phi.p, h);
      PositionIsRank(phi.p, ExpTotal(h));
    }
  }

  lemma {:induction false} ExpTotalIs(h: Exponential)
    ensures ExpTotal(h) == Sat(PlainSum(h.neg) + h.zero + PlainSum(h.pos))
  {
    SumFromIsSum(h.pos, 0, h.zero);
    assert h.pos[0..] == h.pos && h.neg[0..] == h.neg;
    SumFromIsSum(h.neg, 0, SumFrom(h.pos, 0, h.zero));
  }
}
