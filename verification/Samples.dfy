/** One series' samples: time order and duplicated timestamps (crates/imbh-lgtm/src/model/promql.rs). */
module Samples {
  import opened Basics
  import opened Sorting

  /** A double, as the integer `f64::total_cmp` compares: its bits, with the magnitude bits of a
      negative number flipped. */
  type Value = int

  const INFINITY: int := 0x7FF0_0000_0000_0000

  predicate IsNaN(v: Value) { v > INFINITY || v < -INFINITY - 1 }

  datatype Sample = Sample(time: int, value: Value)

  predicate TimeLe(a: Sample, b: Sample) { a.time <= b.time }

  /** `duplicate_value_cmp`: any number outranks any NaN. */
  predicate ValueLe(a: Value, b: Value) {
    if IsNaN(a) != IsNaN(b) then IsNaN(a) else a <= b
  }

  /** The collapsing sort: by time, then the greatest value first. */
  predicate WinnerLe(a: Sample, b: Sample) {
    a.time < b.time || (a.time == b.time && ValueLe(b.value, a.value))
  }

  function AtTime(t: int): Sample -> bool { (s: Sample) => s.time == t }

  datatype Duplicates = ErrorOnRead | LastWins | Reject(recent: nat)

  predicate CollapsesAtRead(d: Duplicates) { d.LastWins? }

  // ----- collapsing

  /** `dedup_by` on equal times: the first of each run stays. */
  function Dedup(xs: seq<Sample>): seq<Sample> {
    if xs == [] then []
    else
      var x, kept := xs[|xs| - 1], Dedup(xs[..|xs| - 1]);
      if kept != [] && kept[|kept| - 1].time == x.time then kept else kept + [x]
  }

  lemma {:induction false} DedupSnoc(xs: seq<Sample>, x: Sample)
    ensures Dedup(xs + [x]) ==
      if Dedup(xs) != [] && Dedup(xs)[|Dedup(xs)| - 1].time == x.time then Dedup(xs) else Dedup(xs) + [x]
  {
    assert (xs + [x])[..|xs|] == xs;
  }

  function Collapse(xs: seq<Sample>): seq<Sample> { Dedup(Sort(WinnerLe, xs)) }

  method CollapseDuplicates(samples: seq<Sample>) returns (out: seq<Sample>, dropped: nat)
    ensures out == Collapse(samples)
    ensures |out| + dropped == |samples|
  {
    SortKeepsElements(WinnerLe, samples);
    out, dropped := DedupByTime(Sort(WinnerLe, samples));
  }

  method DedupByTime(sorted: seq<Sample>) returns (out: seq<Sample>, dropped: nat)
    ensures out == Dedup(sorted) && |out| + dropped == |sorted|
  {
    out, dropped := [], 0;
    for i := 0 to |sorted|
      invariant out == Dedup(sorted[..i]) && |out| + dropped == i
    {
      assert sorted[..i + 1] == sorted[..i] + [sorted[i]];
      DedupSnoc(sorted[..i], sorted[i]);
      if out != [] && out[|out| - 1].time == sorted[i].time {
        dropped := dropped + 1;
      } else {
        out := out + [sorted[i]];
      }
    }
    assert sorted[..|sorted|] == sorted;
  }

  ghost predicate TimesIncrease(xs: seq<Sample>) {
    forall i, j :: 0 <= i < j < |xs| ==> xs[i].time < xs[j].time
  }

  /** `s` has the greatest value any sample of `xs` has at its time; it is a NaN only if they all are. */
  ghost predicate Wins(s: Sample, xs: seq<Sample>) {
    s in xs && forall y :: y in xs && y.time == s.time ==>
      if IsNaN(s.value) then IsNaN(y.value) && y.value <= s.value else IsNaN(y.value) || y.value <= s.value
  }

  lemma WinnerOrder()
    ensures TotalPreorder(WinnerLe)
    ensures forall a, b :: WinnerLe(a, b) && WinnerLe(b, a) ==> a == b
  {
  }

  /** The samples a strictly increasing list keeps are exactly the winners. */
  ghost predicate KeepsWinners(kept: seq<Sample>, xs: seq<Sample>) {
    TimesIncrease(kept) && forall s :: s in kept <==> Wins(s, xs)
  }

  lemma {:induction false} DedupOfSorted(xs: seq<Sample>)
    requires Sorted(WinnerLe, xs)
    ensures KeepsWinners(Dedup(xs), xs)
    ensures xs != [] ==> Dedup(xs) != [] && Dedup(xs)[|Dedup(xs)| - 1].time == xs[|xs| - 1].time
  {
    if xs != [] {
      var n := |xs| - 1;
      var x, rest, kept := xs[n], xs[..n], Dedup(xs[..n]);
      DedupOfSorted(rest);
      assert xs == rest + [x];
      DedupSnoc(rest, x);
      if kept != [] && kept[|kept| - 1].time == x.time {
        LoserIsDropped(kept, rest, x);
      } else {
        NewTimeIsKept(kept, rest, x);
      }
    }
  }

  lemma {:induction false} LoserIsDropped(kept: seq<Sample>, rest: seq<Sample>, x: Sample)
    requires KeepsWinners(kept, rest) && kept != [] && kept[|kept| - 1].time == x.time
    requires forall y :: y in rest ==> WinnerLe(y, x)
    ensures KeepsWinners(kept, rest + [x])
  {
    var top := kept[|kept| - 1];
    assert Wins(top, rest) && WinnerLe(top, x);
    forall s
      ensures Wins(s, rest) <==> Wins(s, rest + [x])
    {
      if Wins(s, rest) {
        assert WinnerLe(s, x);
      }
      if Wins(s, rest + [x]) && s == x {
        assert top in rest + [x];
        assert s == top;
      }
    }
  }

  lemma {:induction false} NewTimeIsKept(kept: seq<Sample>, rest: seq<Sample>, x: Sample)
    requires KeepsWinners(kept, rest)
    requires forall y :: y in rest ==> y.time < x.time
    ensures KeepsWinners(kept + [x], rest + [x])
  {
    forall s
      ensures s in kept + [x] <==> Wins(s, rest + [x])
    {
      if s.time == x.time {
        assert s !in rest;
        assert s in kept ==> Wins(s, rest);
      } else {
        assert Wins(s, rest) <==> Wins(s, rest + [x]);
      }
    }
    assert forall i :: 0 <= i < |kept| ==> Wins(kept[i], rest);
  }

  lemma {:induction false} Winner(xs: seq<Sample>, t: int) returns (s: Sample)
    requires exists x :: x in xs && x.time == t
    ensures Wins(s, xs) && s.time == t
  {
    var n := |xs| - 1;
    var rest := xs[..n];
    assert xs == rest + [xs[n]];
    if exists x :: x in rest && x.time == t {
      s := Winner(rest, t);
      if xs[n].time == t && !ValueLe(xs[n].value, s.value) {
        s := xs[n];
      }
    } else {
      s := xs[n];
    }
  }

  /** Collapsing keeps one sample per time, in time order, and every time: the greatest value seen at it. */
  lemma {:induction false} CollapseKeepsWinners(xs: seq<Sample>)
    ensures KeepsWinners(Collapse(xs), xs)
    ensures forall x :: x in xs ==> exists s :: s in Collapse(xs) && s.time == x.time
  {
    var sorted := Sort(WinnerLe, xs);
    WinnerOrder();
    SortSorted(WinnerLe, xs);
    DedupOfSorted(sorted);
    SortKeepsElements(WinnerLe, xs);
    SameMembers(sorted, xs);
    forall s
      ensures Wins(s, sorted) <==> Wins(s, xs)
    {
    }
    forall x | x in xs
      ensures exists s :: s in Collapse(xs) && s.time == x.time
    {
      var s := Winner(xs, x.time);
      assert s in Collapse(xs);
    }
  }

  /** The result is a function of the multiset of samples, whatever order they were scanned in. */
  lemma {:induction false} CollapseIgnoresOrder(xs: seq<Sample>, ys: seq<Sample>)
    requires multiset(xs) == multiset(ys)
    ensures Collapse(xs) == Collapse(ys)
  {
    WinnerOrder();
    SortSorted(WinnerLe, xs);
    SortSorted(WinnerLe, ys);
    SortKeepsElements(WinnerLe, xs);
    SortKeepsElements(WinnerLe, ys);
    SortedIsUnique(WinnerLe, Sort(WinnerLe, xs), Sort(WinnerLe, ys));
  }

  lemma {:induction false} DedupOfIncreasing(xs: seq<Sample>)
    requires TimesIncrease(xs)
    ensures Dedup(xs) == xs
  {
    if xs != [] {
      var rest, x := xs[..|xs| - 1], xs[|xs| - 1];
      assert xs == rest + [x];
      assert TimesIncrease(rest) by {
        assert forall i :: 0 <= i < |rest| ==> rest[i] == xs[i];
      }
      DedupOfIncreasing(rest);
      DedupSnoc(rest, x);
    }
  }

  /** Collapsing again, as the evaluator does over the merged packs, changes nothing. */
  lemma {:induction false} CollapseOfCollapse(xs: seq<Sample>)
    ensures Collapse(Collapse(xs)) == Collapse(xs)
  {
    var ys := Collapse(xs);
    CollapseKeepsWinners(xs);
    SortOfSorted(WinnerLe, ys);
    DedupOfIncreasing(ys);
  }

  // ----- the strict read

  /** `windows(2).find`: the first time two neighbours share. */
  function FirstRepeat(xs: seq<Sample>): Option<int> {
    if |xs| < 2 then None
    else if xs[0].time == xs[1].time then Some(xs[0].time)
    else FirstRepeat(xs[1..])
  }

  /** `resolve_duplicate_samples`; the error is the repeated instant. */
  function Resolve(d: Duplicates, xs: seq<Sample>): Result<seq<Sample>, int> {
    if CollapsesAtRead(d) then Ok(Collapse(xs))
    else
      var sorted := Sort(TimeLe, xs);
      match FirstRepeat(sorted)
      case Some(t) => Err(t)
      case None => Ok(sorted)
  }

  predicate Repeats(xs: seq<Sample>, t: int) { |Filter(AtTime(t), xs)| >= 2 }

  lemma {:induction false} FirstRepeatIs(xs: seq<Sample>)
    requires Sorted(TimeLe, xs)
    ensures match FirstRepeat(xs)
      case None => forall t :: !Repeats(xs, t)
      case Some(t) => Repeats(xs, t) && forall u :: u < t ==> !Repeats(xs, u)
  {
    if |xs| == 1 {
      assert xs[1..] == [];
    } else if |xs| >= 2 && xs[0].time == xs[1].time {
      var t := xs[0].time;
      assert Filter(AtTime(t), xs[1..]) == [xs[1]] + Filter(AtTime(t), xs[1..][1..]);
      forall u | u < t
        ensures !Repeats(xs, u)
      {
        FilterNone(AtTime(u), xs);
      }
    } else if |xs| >= 2 {
      FirstRepeatIs(xs[1..]);
      FilterNone(AtTime(xs[0].time), xs[1..]);
      forall t
        ensures Repeats(xs, t) <==> Repeats(xs[1..], t)
      {
      }
    }
  }

  /** The strict read fails exactly when some time is repeated, and names the earliest one. */
  lemma {:induction false} ResolveFailsIff(d: Duplicates, xs: seq<Sample>)
    requires !CollapsesAtRead(d)
    ensures match Resolve(d, xs)
      case Ok(out) => out == Sort(TimeLe, xs) && forall t :: !Repeats(xs, t)
      case Err(t) => Repeats(xs, t) && forall u :: u < t ==> !Repeats(xs, u)
  {
    SortSorted(TimeLe, xs);
    FirstRepeatIs(Sort(TimeLe, xs));
    forall t
      ensures Repeats(xs, t) <==> Repeats(Sort(TimeLe, xs), t)
    {
      SortStable(TimeLe, AtTime(t), xs);
    }
  }

  /** Samples at one time are all the same sample. */
  ghost predicate Agreeing(xs: seq<Sample>) {
    forall a, b :: a in xs && b in xs && a.time == b.time ==> a == b
  }

  ghost predicate OrderFree(xs: seq<Sample>) {
    forall ys: seq<Sample> :: multiset(ys) == multiset(xs) ==> Sort(TimeLe, ys) == Sort(TimeLe, xs)
  }

  /** Under the erroring policies a read series depends on the order its rows were scanned in exactly
      when two different samples share a time. */
  lemma {:induction false} StrictReadIgnoresOrderIff(xs: seq<Sample>)
    ensures OrderFree(xs) <==> Agreeing(xs)
  {
    if Agreeing(xs) {
      forall ys: seq<Sample> | multiset(ys) == multiset(xs)
        ensures Sort(TimeLe, ys) == Sort(TimeLe, xs)
      {
        AgreeingSortsAlike(xs, ys);
      }
    } else {
      var a, b :| a in xs && b in xs && a.time == b.time && a != b;
      DisagreeingSortsApart(xs, a, b);
    }
  }

  lemma {:induction false} AgreeingSortsAlike(xs: seq<Sample>, ys: seq<Sample>)
    requires Agreeing(xs) && multiset(ys) == multiset(xs)
    ensures Sort(TimeLe, ys) == Sort(TimeLe, xs)
  {
    SortSorted(TimeLe, xs);
    SortSorted(TimeLe, ys);
    SortKeepsElements(TimeLe, xs);
    SortKeepsElements(TimeLe, ys);
    SameMembers(Sort(TimeLe, xs), xs);
    SortedIsUnique(TimeLe, Sort(TimeLe, xs), Sort(TimeLe, ys));
  }

  lemma {:induction false} DisagreeingSortsApart(xs: seq<Sample>, a: Sample, b: Sample)
    requires a in xs && b in xs && a.time == b.time && a != b
    ensures !OrderFree(xs)
  {
    PutBack(multiset(xs), a, b);
    var once := TakeOut(xs, a);
    assert b in multiset(once);
    var rest := TakeOut(once, b);
    OrderIsSeen(a, b, rest);
    if OrderFree(xs) {
      TwoOrders(xs, a, b, rest);
    }
  }

  lemma PutBack<T>(all: multiset<T>, a: T, b: T)
    requires a in all && b in all && a != b
    ensures b in all - multiset{a}
    ensures all - multiset{a} - multiset{b} + multiset{b} + multiset{a} == all
  {
  }

  lemma {:induction false} TwoOrders(xs: seq<Sample>, a: Sample, b: Sample, rest: seq<Sample>)
    requires multiset(rest) + multiset{b} + multiset{a} == multiset(xs) && OrderFree(xs)
    ensures Sort(TimeLe, [a, b] + rest) == Sort(TimeLe, [b, a] + rest)
  {
    assert [a, b] + rest == [a] + ([b] + rest);
    assert [b, a] + rest == [b] + ([a] + rest);
    assert multiset([a, b] + rest) == multiset{a} + (multiset{b} + multiset(rest));
    assert multiset([b, a] + rest) == multiset{b} + (multiset{a} + multiset(rest));
  }

  lemma {:induction false} OrderIsSeen(a: Sample, b: Sample, rest: seq<Sample>)
    requires a.time == b.time && a != b
    ensures Sort(TimeLe, [a, b] + rest) != Sort(TimeLe, [b, a] + rest)
  {
    var p := AtTime(a.time);
    SortStable(TimeLe, p, [a, b] + rest);
    SortStable(TimeLe, p, [b, a] + rest);
    assert Filter(p, [a, b] + rest)[0] == a;
    assert Filter(p, [b, a] + rest)[0] == b;
  }

  function TakeOut(xs: seq<Sample>, x: Sample): (r: seq<Sample>)
    requires x in xs
    ensures multiset(r) == multiset(xs) - multiset{x}
  {
    if xs[0] == x then
      assert xs == [x] + xs[1..];
      xs[1..]
    else
      assert xs == [xs[0]] + xs[1..];
      [xs[0]] + TakeOut(xs[1..], x)
  }
}
