/** Coalescing rows into counted calls leaves the accumulator in the row-at-a-time state. */
module Coalescing {
  import opened Basics
  import opened Values
  import opened Sketches
  import opened Accumulator
  import opened Feed
  import opened Exactness
  import opened Scans

  // ----- additivity of the exact definitions

  lemma {:induction false} OnlyOfConcat<O>(h: u64, xs: seq<Hit<O>>, ys: seq<Hit<O>>)
    ensures Only(h, xs + ys) == Only(h, xs) + Only(h, ys)
  {
    if ys == [] {
      assert xs + ys == xs;
    } else {
      var n := |ys| - 1;
      OnlyOfConcat(h, xs, ys[..n]);
      assert (xs + ys)[..|xs + ys| - 1] == xs + ys[..n];
      ConcatAssociates(Only(h, xs), Only(h, ys[..n]), if ys[n].hash == h then [ys[n].obs] else []);
    }
  }

  lemma {:induction false} SumOfConcat(f: Sighting -> nat, xs: seq<Sighting>, ys: seq<Sighting>)
    ensures Sum(f, xs + ys) == Sum(f, xs) + Sum(f, ys)
    ensures Largest(f, xs + ys) == Max(Largest(f, xs), Largest(f, ys))
  {
    if ys == [] {
      assert xs + ys == xs;
    } else {
      SumOfConcat(f, xs, ys[..|ys| - 1]);
      assert (xs + ys)[..|xs + ys| - 1] == xs + ys[..|ys| - 1];
    }
  }

  // ----- one observation counted in two parts

  /** `x` is one call for the rows that `y` and then `z` cover. */
  predicate SplitsOne(x: Sighting, y: Sighting, z: Sighting) {
    && y == x.(count := y.count)
    && z == x.(count := z.count, newRun := false)
    && x.count == y.count + z.count
  }

  ghost predicate Splits(xs: seq<Sighting>, ys: seq<Sighting>, zs: seq<Sighting>) {
    |xs| == |ys| == |zs| && forall i :: 0 <= i < |xs| ==> SplitsOne(xs[i], ys[i], zs[i])
  }

  lemma {:induction false} SplitSums(xs: seq<Sighting>, ys: seq<Sighting>, zs: seq<Sighting>)
    requires Splits(xs, ys, zs)
    ensures Sum(Rows, xs) == Sum(Rows, ys) + Sum(Rows, zs)
    ensures Sum(StringRows, xs) == Sum(StringRows, ys) + Sum(StringRows, zs)
    ensures Sum(NewRuns, xs) == Sum(NewRuns, ys) + Sum(NewRuns, zs)
  {
    if xs != [] {
      var n := |xs| - 1;
      SplitSums(xs[..n], ys[..n], zs[..n]);
      assert SplitsOne(xs[n], ys[n], zs[n]);
    }
  }

  lemma Distribute(a: nat, b: nat, k: nat)
    ensures k * (a + b) == k * a + k * b
  {
  }

  lemma {:induction false} SplitLengths(xs: seq<Sighting>, ys: seq<Sighting>, zs: seq<Sighting>)
    requires Splits(xs, ys, zs)
    ensures Sum(StringBytes, xs) == Sum(StringBytes, ys) + Sum(StringBytes, zs)
    ensures Largest(StringLength, xs) == Largest(StringLength, ys) == Largest(StringLength, zs)
  {
    if xs != [] {
      var n := |xs| - 1;
      SplitLengths(xs[..n], ys[..n], zs[..n]);
      assert SplitsOne(xs[n], ys[n], zs[n]);
      Distribute(ys[n].count, zs[n].count, StringLength(xs[n]));
    }
  }

  ghost predicate AllAt(os: seq<Sighting>, m: Mark) {
    forall o :: o in os ==> o.mark == m
  }

  // ----- values: only the set of marks and the last one matter

  lemma RepeatedMark(ms: seq<Mark>, a: seq<Mark>, b: seq<Mark>, m: Mark, levels: nat)
    requires |m.windows| == levels && Leveled(ms, levels)
    requires (forall x :: x in a ==> x == m) && (forall x :: x in b ==> x == m)
    requires a == [] <==> b == []
    requires ms + a != [] && ms + b != []
    ensures Leveled(ms + a, levels) && Leveled(ms + b, levels)
    ensures ExactValue(ms + a, levels) == ExactValue(ms + b, levels)
  {
    var p, q := ms + a, ms + b;
    if a != [] {
      assert a[0] in a && b[0] in b && a[|a| - 1] in a && b[|b| - 1] in b;
      assert m in p && m in q && p[|p| - 1] == m == q[|q| - 1];
    }
    assert forall x :: x in p <==> x in ms || (x == m && a != []);
    assert forall x :: x in q <==> x in ms || (x == m && b != []);
    assert Ordinals(SegsOf(p)) == Ordinals(SegsOf(q)) by {
      SegMembers(p, q);
      SegMembers(q, p);
      SameOrdinals(SegsOf(p), SegsOf(q));
    }
    forall l | 0 <= l < levels
      ensures Ordinals(WindowsOf(p, l)) == Ordinals(WindowsOf(q, l))
    {
      WindowMembers(p, q, l);
      WindowMembers(q, p, l);
      SameOrdinals(WindowsOf(p, l), WindowsOf(q, l));
    }
    assert ExactValue(p, levels).windows == ExactValue(q, levels).windows;
  }

  lemma SegMembers(p: seq<Mark>, q: seq<Mark>)
    requires forall x :: x in p ==> x in q
    ensures forall s :: s in SegsOf(p) ==> s in SegsOf(q)
  {
    forall i | 0 <= i < |p|
      ensures SegsOf(p)[i] in SegsOf(q)
    {
      assert p[i] in q;
      var j :| 0 <= j < |q| && q[j] == p[i];
      assert SegsOf(q)[j] == p[i].seg;
    }
  }

  lemma WindowMembers(p: seq<Mark>, q: seq<Mark>, l: nat)
    requires (forall m :: m in p ==> l < |m.windows|) && (forall m :: m in q ==> l < |m.windows|)
    requires forall x :: x in p ==> x in q
    ensures forall s :: s in WindowsOf(p, l) ==> s in WindowsOf(q, l)
  {
    forall i | 0 <= i < |p|
      ensures WindowsOf(p, l)[i] in WindowsOf(q, l)
    {
      assert p[i] in q;
      var j :| 0 <= j < |q| && q[j] == p[i];
      assert WindowsOf(q, l)[j] == p[i].windows[l];
    }
  }

  lemma SameOrdinals(xs: seq<nat>, ys: seq<nat>)
    requires forall v :: v in xs <==> v in ys
    ensures Ordinals(xs) == Ordinals(ys)
  {
    assert forall v :: v in Ordinals(xs) <==> v in xs && v != NO_SEG;
    assert forall v :: v in Ordinals(ys) <==> v in ys && v != NO_SEG;
  }

  ghost predicate HasText(xs: seq<Sighting>, t: u64) {
    exists i :: 0 <= i < |xs| && xs[i].text == t
  }

  /** Which texts occur among observations all made at one mark. */
  lemma TextsAt(t: u64, xs: seq<Sighting>, m: Mark)
    requires AllAt(xs, m)
    ensures forall x :: x in Only(t, ValueHits(xs)) ==> x == m
    ensures Only(t, ValueHits(xs)) != [] <==> HasText(xs, t)
  {
    var hits := ValueHits(xs);
    OnlySeen(t, hits);
    OnlyOfAll(t, xs, m);
    assert forall i :: 0 <= i < |xs| ==> hits[i].hash == xs[i].text;
  }

  lemma {:induction false} OnlyOfAll(t: u64, xs: seq<Sighting>, m: Mark)
    requires AllAt(xs, m)
    ensures forall x :: x in Only(t, ValueHits(xs)) ==> x == m
  {
    if xs != [] {
      var n := |xs| - 1;
      assert xs[n] in xs;
      assert ValueHits(xs)[..n] == ValueHits(xs[..n]);
      OnlyOfAll(t, xs[..n], m);
    }
  }

  lemma ValueHitsOfConcat(xs: seq<Sighting>, ys: seq<Sighting>)
    ensures ValueHits(xs + ys) == ValueHits(xs) + ValueHits(ys)
    ensures MarksOf(xs + ys) == MarksOf(xs) + MarksOf(ys)
  {
  }

  /** One text's exact value does not notice the split. */
  lemma SplitValue(t: u64, p: seq<Sighting>, xs: seq<Sighting>, ys: seq<Sighting>, m: Mark, levels: nat)
    requires |m.windows| == levels && forall o :: o in p ==> |o.mark.windows| == levels
    requires AllAt(xs, m) && AllAt(ys, m)
    requires HasText(xs, t) <==> HasText(ys, t)
    ensures var a, b := Only(t, ValueHits(p + xs)), Only(t, ValueHits(p + ys));
      && (a == [] <==> b == [])
      && (a != [] ==> Leveled(a, levels) && Leveled(b, levels) && ExactValue(a, levels) == ExactValue(b, levels))
  {
    ValueHitsOfConcat(p, xs);
    ValueHitsOfConcat(p, ys);
    OnlyOfConcat(t, ValueHits(p), ValueHits(xs));
    OnlyOfConcat(t, ValueHits(p), ValueHits(ys));
    OnlyMarks(t, p, levels);
    TextsAt(t, xs, m);
    TextsAt(t, ys, m);
    var q, u, v := Only(t, ValueHits(p)), Only(t, ValueHits(xs)), Only(t, ValueHits(ys));
    assert q + u == [] <==> q == [] && u == [];
    assert q + v == [] <==> q == [] && v == [];
    if q + u != [] {
      RepeatedMark(q, u, v, m, levels);
    }
  }

  ghost predicate SameTexts(xs: seq<Sighting>, ys: seq<Sighting>) {
    forall t: u64 :: HasText(xs, t) <==> HasText(ys, t)
  }

  lemma {:induction false} SplitValues(p: seq<Sighting>, xs: seq<Sighting>, ys: seq<Sighting>, m: Mark, levels: nat)
    requires |m.windows| == levels && forall o :: o in p ==> |o.mark.windows| == levels
    requires AllAt(xs, m) && AllAt(ys, m) && SameTexts(xs, ys)
    requires (forall o :: o in p + xs ==> |o.mark.windows| == levels)
      && (forall o :: o in p + ys ==> |o.mark.windows| == levels)
    ensures ExactValues(p + xs, levels) == ExactValues(p + ys, levels)
  {
    var a, b := ExactValues(p + xs, levels), ExactValues(p + ys, levels);
    forall t: u64
      ensures t in a <==> t in b
      ensures t in a ==> a[t] == b[t]
    {
      OnlySeen(t, ValueHits(p + xs));
      OnlySeen(t, ValueHits(p + ys));
      SplitValue(t, p, xs, ys, m, levels);
    }
    assert a.Keys == b.Keys;
  }

  lemma SplitSegments(p: seq<Sighting>, xs: seq<Sighting>, ys: seq<Sighting>, m: Mark)
    requires AllAt(xs, m) && AllAt(ys, m) && xs != [] && ys != []
    ensures Ordinals(SegsOf(MarksOf(p + xs))) == Ordinals(SegsOf(MarksOf(p + ys)))
  {
    var a, b := SegsOf(MarksOf(p + xs)), SegsOf(MarksOf(p + ys));
    assert xs[0] in xs && ys[0] in ys;
    assert a[|p|] == m.seg == b[|p|];
    assert forall i :: 0 <= i < |p| ==> a[i] == b[i];
    assert forall i :: |p| <= i < |a| ==> (p + xs)[i] in xs && a[i] == m.seg;
    assert forall i :: |p| <= i < |b| ==> (p + ys)[i] in ys && b[i] == m.seg;
    SameOrdinals(a, b);
  }

  lemma SplitTexts(xs: seq<Sighting>, ys: seq<Sighting>, zs: seq<Sighting>)
    requires Splits(xs, ys, zs)
    ensures SameTexts(xs, ys + zs)
  {
    var both := ys + zs;
    assert forall i :: 0 <= i < |xs| ==> SplitsOne(xs[i], ys[i], zs[i]) && both[i].text == xs[i].text;
    assert forall i :: |xs| <= i < |both| ==> both[i].text == xs[i - |xs|].text;
  }

  /** A key's exact state does not notice that the last observations were counted in two parts. */
  lemma {:induction false} SplitKey(p: seq<Sighting>, xs: seq<Sighting>, ys: seq<Sighting>, zs: seq<Sighting>,
      m: Mark, levels: nat, cap: nat)
    requires Splits(xs, ys, zs) && AllAt(xs, m) && |m.windows| == levels && xs != []
    requires forall o :: o in p ==> |o.mark.windows| == levels
    ensures forall o :: o in p + xs ==> |o.mark.windows| == levels
    ensures forall o :: o in p + (ys + zs) ==> |o.mark.windows| == levels
    ensures ExactKey(p + xs, levels, cap) == ExactKey(p + (ys + zs), levels, cap)
  {
    var both := ys + zs;
    assert forall i :: 0 <= i < |xs| ==> SplitsOne(xs[i], ys[i], zs[i]) && xs[i] in xs;
    assert AllAt(both, m);
    SplitTexts(xs, ys, zs);
    SplitSegments(p, xs, both, m);
    SplitValues(p, xs, both, m, levels);
    SplitCounters(p, xs, ys, zs);
  }

  lemma {:induction false} SplitCounters(p: seq<Sighting>, xs: seq<Sighting>, ys: seq<Sighting>, zs: seq<Sighting>)
    requires Splits(xs, ys, zs)
    ensures var a, b := p + xs, p + (ys + zs);
      && Sum(Rows, a) == Sum(Rows, b) && Sum(StringRows, a) == Sum(StringRows, b) && Sum(NewRuns, a) == Sum(NewRuns, b)
      && Sum(StringBytes, a) == Sum(StringBytes, b) && Largest(StringLength, a) == Largest(StringLength, b)
  {
    SplitSums(xs, ys, zs);
    SplitLengths(xs, ys, zs);
    SplitSum(Rows, p, xs, ys, zs);
    SplitSum(StringRows, p, xs, ys, zs);
    SplitSum(NewRuns, p, xs, ys, zs);
    SplitSum(StringBytes, p, xs, ys, zs);
    SumOfConcat(StringLength, p, xs);
    SumOfConcat(StringLength, p, ys + zs);
    SumOfConcat(StringLength, ys, zs);
  }

  lemma {:induction false} SplitSum(f: Sighting -> nat, p: seq<Sighting>, xs: seq<Sighting>, ys: seq<Sighting>,
      zs: seq<Sighting>)
    requires Sum(f, xs) == Sum(f, ys) + Sum(f, zs)
    ensures Sum(f, p + xs) == Sum(f, p + (ys + zs))
  {
    SumOfConcat(f, p, xs);
    SumOfConcat(f, p, ys + zs);
    SumOfConcat(f, ys, zs);
  }

  // ----- the state after calls made in one segment

  /** All the calls are observations. */
  predicate Observes(calls: seq<Event>) {
    forall e :: e in calls ==> e.Observe?
  }

  function SeenAll(c: Config, m: Mark, calls: seq<Event>): seq<Hit<Sighting>>
    requires Observes(calls)
  {
    if calls == [] then []
    else
      assert calls[|calls| - 1] in calls;
      SeenAll(c, m, calls[..|calls| - 1]) + [Seen(c, m, calls[|calls| - 1])]
  }

  lemma {:induction false} ReplaySnoc(c: Config, events: seq<Event>, calls: seq<Event>)
    requires calls != []
    ensures (events + calls)[..|events + calls| - 1] == events + calls[..|calls| - 1]
    ensures Replay(c, events + calls) == Next(c, Replay(c, events + calls[..|calls| - 1]), calls[|calls| - 1])
  {
    assert (events + calls)[..|events + calls| - 1] == events + calls[..|calls| - 1];
  }

  lemma {:induction false} CallsKeepClock(c: Config, events: seq<Event>, calls: seq<Event>)
    requires Observes(calls)
    ensures Replay(c, events + calls) == Replay(c, events).(keys := Replay(c, events + calls).keys)
  {
    if calls == [] {
      assert events + calls == events;
    } else {
      assert calls[|calls| - 1] in calls;
      CallsKeepClock(c, events, calls[..|calls| - 1]);
      ReplaySnoc(c, events, calls);
    }
  }

  lemma {:induction false} SightingsOneMore(c: Config, events: seq<Event>, e: Event)
    requires e.Observe?
    ensures Sightings(c, events + [e]) ==
      Sightings(c, events) + [Seen(c, MarkAfter(c.widths, Times(events)), e)]
  {
    assert (events + [e])[..|events + [e]| - 1] == events;
  }

  lemma {:induction false} SightingsSnoc(c: Config, events: seq<Event>, calls: seq<Event>)
    requires calls != [] && Observes(calls)
    ensures var n := |calls| - 1;
      Sightings(c, events + calls) == Sightings(c, events + calls[..n])
        + [Seen(c, MarkAfter(c.widths, Times(events)), calls[n])]
  {
    var n := |calls| - 1;
    assert calls[n] in calls;
    assert forall e :: e in calls[..n] ==> e in calls;
    TimesOfCalls(events, calls[..n]);
    assert events + calls == events + calls[..n] + [calls[n]];
    SightingsOneMore(c, events + calls[..n], calls[n]);
  }

  lemma {:induction false} SightingsOfCalls(c: Config, events: seq<Event>, calls: seq<Event>)
    requires Observes(calls)
    ensures Sightings(c, events + calls) == Sightings(c, events) + SeenAll(c, MarkAfter(c.widths, Times(events)), calls)
  {
    var m := MarkAfter(c.widths, Times(events));
    if calls == [] {
      assert events + calls == events;
      assert SeenAll(c, m, calls) == [];
    } else {
      var n := |calls| - 1;
      assert calls[n] in calls;
      SightingsOfCalls(c, events, calls[..n]);
      SightingsSnoc(c, events, calls);
      ConcatAssociates(Sightings(c, events), SeenAll(c, m, calls[..n]), [Seen(c, m, calls[n])]);
    }
  }

  ghost predicate CallSplits(x: Event, y: Event, z: Event) {
    && x.Observe? && y.Observe? && z.Observe?
    && y == x.(count := y.count)
    && z == x.(count := z.count, newRun := false)
    && x.count == y.count + z.count
  }

  ghost predicate CallsSplit(xs: seq<Event>, ys: seq<Event>, zs: seq<Event>) {
    |xs| == |ys| == |zs| && forall i :: 0 <= i < |xs| ==> CallSplits(xs[i], ys[i], zs[i])
  }

  lemma {:induction false} SightingsAtNow(c: Config, m: Mark, h: u64, calls: seq<Event>)
    requires Observes(calls)
    ensures AllAt(Only(h, SeenAll(c, m, calls)), m)
  {
    if calls != [] {
      var n := |calls| - 1;
      assert calls[n] in calls;
      SightingsAtNow(c, m, h, calls[..n]);
      OnlySnoc(h, SeenAll(c, m, calls[..n]), Seen(c, m, calls[n]));
    }
  }

  lemma SplitsSnoc(xs: seq<Sighting>, ys: seq<Sighting>, zs: seq<Sighting>, x: Sighting, y: Sighting, z: Sighting)
    requires Splits(xs, ys, zs) && SplitsOne(x, y, z)
    ensures Splits(xs + [x], ys + [y], zs + [z])
  {
  }

  lemma {:induction false} PickSnoc(c: Config, m: Mark, h: u64, calls: seq<Event>, e: Event)
    requires Observes(calls) && Observes(calls + [e]) && e.Observe?
    ensures Only(h, SeenAll(c, m, calls + [e])) ==
      if c.hash(e.name) == h then Only(h, SeenAll(c, m, calls)) + [Seen(c, m, e).obs] else Only(h, SeenAll(c, m, calls))
  {
    assert (calls + [e])[..|calls|] == calls && (calls + [e])[|calls|] == e;
    OnlySnoc(h, SeenAll(c, m, calls), Seen(c, m, e));
  }

  /** Picking one key out of split calls gives split sightings. */
  lemma {:induction false} SplitOnly(c: Config, m: Mark, h: u64, xs: seq<Event>, ys: seq<Event>, zs: seq<Event>)
    requires CallsSplit(xs, ys, zs)
    requires Observes(xs) && Observes(ys) && Observes(zs)
    ensures Splits(Only(h, SeenAll(c, m, xs)), Only(h, SeenAll(c, m, ys)), Only(h, SeenAll(c, m, zs)))
    decreases |xs|
  {
    if xs != [] {
      var n := |xs| - 1;
      var xs', ys', zs', x, y, z := xs[..n], ys[..n], zs[..n], xs[n], ys[n], zs[n];
      assert xs == xs' + [x] && ys == ys' + [y] && zs == zs' + [z];
      assert CallSplits(x, y, z);
      SplitOnly(c, m, h, xs', ys', zs');
      PickSnoc(c, m, h, xs', x);
      PickSnoc(c, m, h, ys', y);
      PickSnoc(c, m, h, zs', z);
      SplitsSnoc(
        Only(h, SeenAll(c, m, xs')), Only(h, SeenAll(c, m, ys')), Only(h, SeenAll(c, m, zs')),
        Seen(c, m, x).obs, Seen(c, m, y).obs, Seen(c, m, z).obs);
    }
  }

  lemma {:induction false} PickAfterCalls(c: Config, events: seq<Event>, calls: seq<Event>, h: u64)
    requires Observes(calls)
    ensures Only(h, Sightings(c, events + calls)) ==
      Only(h, Sightings(c, events)) + Only(h, SeenAll(c, MarkAfter(c.widths, Times(events)), calls))
  {
    SightingsOfCalls(c, events, calls);
    OnlyOfConcat(h, Sightings(c, events), SeenAll(c, MarkAfter(c.widths, Times(events)), calls));
  }

  lemma {:induction false} SeenAllOfConcat(c: Config, m: Mark, ys: seq<Event>, zs: seq<Event>)
    requires Observes(ys) && Observes(zs)
    requires Observes(ys + zs)
    ensures SeenAll(c, m, ys + zs) == SeenAll(c, m, ys) + SeenAll(c, m, zs)
  {
    if zs == [] {
      assert ys + zs == ys;
    } else {
      var n := |zs| - 1;
      assert zs[n] in zs;
      assert forall e :: e in ys + zs[..n] ==> e in ys || e in zs;
      SeenAllOfConcat(c, m, ys, zs[..n]);
      assert (ys + zs)[..|ys + zs| - 1] == ys + zs[..n];
      ConcatAssociates(SeenAll(c, m, ys), SeenAll(c, m, zs[..n]), [Seen(c, m, zs[n])]);
    }
  }

  lemma {:induction false} PickOfTwo(c: Config, m: Mark, ys: seq<Event>, zs: seq<Event>, h: u64)
    requires Observes(ys) && Observes(zs)
    requires Observes(ys + zs)
    ensures Only(h, SeenAll(c, m, ys + zs)) == Only(h, SeenAll(c, m, ys)) + Only(h, SeenAll(c, m, zs))
  {
    SeenAllOfConcat(c, m, ys, zs);
    OnlyOfConcat(h, SeenAll(c, m, ys), SeenAll(c, m, zs));
  }

  lemma {:induction false} SplitEntry(c: Config, events: seq<Event>, xs: seq<Event>, ys: seq<Event>, zs: seq<Event>,
      h: u64)
    requires CallsSplit(xs, ys, zs) && Begins(events) <= NO_SEG
    requires Observes(xs) && Observes(ys)
    requires Observes(zs) && Observes(ys + zs)
    ensures var a, b := Only(h, Sightings(c, events + xs)), Only(h, Sightings(c, events + (ys + zs)));
      && (a == [] <==> b == [])
      && (a != [] ==>
        && (forall o :: o in a ==> |o.mark.windows| == |c.widths|)
        && (forall o :: o in b ==> |o.mark.windows| == |c.widths|)
        && ExactKey(a, |c.widths|, c.valueCap) == ExactKey(b, |c.widths|, c.valueCap))
  {
    var m := MarkAfter(c.widths, Times(events));
    PickAfterCalls(c, events, xs, h);
    PickAfterCalls(c, events, ys + zs, h);
    PickOfTwo(c, m, ys, zs, h);
    SplitOnly(c, m, h, xs, ys, zs);
    SightingsAtNow(c, m, h, xs);
    OneKey(c, events, h);
    var p, x := Only(h, Sightings(c, events)), Only(h, SeenAll(c, m, xs));
    var y, z := Only(h, SeenAll(c, m, ys)), Only(h, SeenAll(c, m, zs));
    if x == [] {
      assert p + x == p && p + (y + z) == p;
    } else {
      SplitKey(p, x, y, z, m, |c.widths|, c.valueCap);
    }
  }

  lemma {:induction false} SplitTables(c: Config, events: seq<Event>, xs: seq<Event>, ys: seq<Event>, zs: seq<Event>)
    requires CallsSplit(xs, ys, zs) && Begins(events) <= NO_SEG
    requires Observes(xs) && Observes(ys)
    requires Observes(zs) && Observes(ys + zs)
    requires Begins(events + xs) <= NO_SEG && Begins(events + (ys + zs)) <= NO_SEG
    ensures ExactTable(c, events + xs) == ExactTable(c, events + (ys + zs))
  {
    var a, b := ExactTable(c, events + xs), ExactTable(c, events + (ys + zs));
    forall h: u64
      ensures h in a <==> h in b
      ensures h in a ==> a[h] == b[h]
    {
      SplitEntry(c, events, xs, ys, zs, h);
      OnlySeen(h, Sightings(c, events + xs));
      OnlySeen(h, Sightings(c, events + (ys + zs)));
    }
    assert a.Keys == b.Keys;
  }

  /** Counting calls in two parts leaves the same state. */
  lemma {:induction false} SplitCallsSameState(c: Config, events: seq<Event>, xs: seq<Event>, ys: seq<Event>,
      zs: seq<Event>)
    requires CallsSplit(xs, ys, zs) && Begins(events) <= NO_SEG
    ensures Replay(c, events + xs) == Replay(c, events + (ys + zs))
  {
    assert forall i :: 0 <= i < |xs| ==> CallSplits(xs[i], ys[i], zs[i]);
    var both := ys + zs;
    TimesOfCalls(events, xs);
    TimesOfCalls(events, both);
    SplitTables(c, events, xs, ys, zs);
    SameTableSameState(c, events, xs, both);
  }

  lemma {:induction false} SameTableSameState(c: Config, events: seq<Event>, xs: seq<Event>, ys: seq<Event>)
    requires Observes(xs) && Observes(ys)
    requires Begins(events + xs) <= NO_SEG && Begins(events + ys) <= NO_SEG
    requires ExactTable(c, events + xs) == ExactTable(c, events + ys)
    ensures Replay(c, events + xs) == Replay(c, events + ys)
  {
    CallsKeepClock(c, events, xs);
    CallsKeepClock(c, events, ys);
    TwoLevelRefinement(c, events + xs);
    TwoLevelRefinement(c, events + ys);
  }

  // ----- runs of rows

  /** Seen again right after itself, the blob starts no run. */
  predicate Steady(attrs: seq<Entry>) {
    forall i :: 0 <= i < |attrs| ==> !StartsRun(Some(attrs), attrs[i])
  }

  lemma {:induction false} FindFirst(attrs: seq<Entry>, i: nat)
    requires i < |attrs| && forall j :: 0 <= j < i ==> attrs[j].key != attrs[i].key
    ensures Find(attrs, attrs[i].key) == Some(attrs[i].value)
  {
    if i > 0 {
      FindFirst(attrs[1..], i - 1);
    }
  }

  predicate DistinctNoNaN(attrs: seq<Entry>) {
    && (forall i, j :: 0 <= i < j < |attrs| ==> attrs[i].key != attrs[j].key)
    && (forall i :: 0 <= i < |attrs| ==> !HasNaN(attrs[i].value))
  }

  /** Distinct keys and no NaN make a blob steady. */
  lemma DistinctIsSteady(attrs: seq<Entry>)
    requires DistinctNoNaN(attrs)
    ensures Steady(attrs)
  {
    forall i | 0 <= i < |attrs|
      ensures !StartsRun(Some(attrs), attrs[i])
    {
      FindFirst(attrs, i);
      SameAsItself(attrs[i].value);
    }
  }

  lemma {:induction false} CallAt(r: Reader, scope: AttrScope, attrs: seq<Entry>, count: nat, prev: Option<seq<Entry>>)
    ensures var calls := Calls(r, scope, attrs, count, prev);
      |calls| == |attrs| && forall i :: 0 <= i < |attrs| ==>
        calls[i] == CallFor(r, scope, attrs[i], count, StartsRun(prev, attrs[i]))
  {
    if attrs != [] {
      CallAt(r, scope, attrs[..|attrs| - 1], count, prev);
    }
  }

  lemma {:induction false} SteadyCallsSplit(r: Reader, scope: AttrScope, attrs: seq<Entry>, n: nat,
      prev: Option<seq<Entry>>)
    requires Steady(attrs)
    ensures CallsSplit(
      Calls(r, scope, attrs, n + 1, prev), Calls(r, scope, attrs, n, prev), Calls(r, scope, attrs, 1, Some(attrs)))
  {
    CallAt(r, scope, attrs, n + 1, prev);
    CallAt(r, scope, attrs, n, prev);
    CallAt(r, scope, attrs, 1, Some(attrs));
  }

  lemma {:induction false} SameStateThenSame(c: Config, a: seq<Event>, b: seq<Event>, more: seq<Event>)
    requires Replay(c, a) == Replay(c, b)
    ensures Replay(c, a + more) == Replay(c, b + more)
  {
    if more == [] {
      assert a + more == a && b + more == b;
    } else {
      SameStateThenSame(c, a, b, more[..|more| - 1]);
      ReplaySnoc(c, a, more);
      ReplaySnoc(c, b, more);
    }
  }

  lemma PrevOfConcat(r: Reader, xs: seq<Run>, ys: seq<Run>, prev: Option<seq<Entry>>)
    ensures PrevAfter(r, xs + ys, prev) == PrevAfter(r, ys, PrevAfter(r, xs, prev))
  {
    if ys == [] {
      assert xs + ys == xs;
    }
  }

  lemma {:induction false} WalkOneMore(r: Reader, scope: AttrScope, xs: seq<Run>, ys: seq<Run>, last: Run,
      prev: Option<seq<Entry>>)
    requires Walk(r, scope, xs + ys, prev) == Walk(r, scope, xs, prev) + Walk(r, scope, ys, PrevAfter(r, xs, prev))
    ensures Walk(r, scope, xs + ys + [last], prev)
      == Walk(r, scope, xs, prev) + Walk(r, scope, ys + [last], PrevAfter(r, xs, prev))
  {
    var p := PrevAfter(r, xs, prev);
    PrevOfConcat(r, xs, ys, prev);
    WalkSnoc(r, scope, xs + ys, last, prev);
    WalkSnoc(r, scope, ys, last, p);
    ConcatAssociates(Walk(r, scope, xs, prev), Walk(r, scope, ys, p),
      Calls(r, scope, r.parse(last.blob), last.count, PrevAfter(r, ys, p)));
  }

  lemma {:induction false} WalkOfConcat(r: Reader, scope: AttrScope, xs: seq<Run>, ys: seq<Run>,
      prev: Option<seq<Entry>>)
    ensures Walk(r, scope, xs + ys, prev) == Walk(r, scope, xs, prev) + Walk(r, scope, ys, PrevAfter(r, xs, prev))
    decreases |ys|
  {
    if ys == [] {
      assert xs + ys == xs;
      assert Walk(r, scope, xs, prev) + [] == Walk(r, scope, xs, prev);
    } else {
      var n := |ys| - 1;
      var init, last := ys[..n], ys[n];
      WalkOfConcat(r, scope, xs, init, prev);
      ConcatAssociates(xs, init, [last]);
      assert ys == init + [last];
      WalkOneMore(r, scope, xs, init, last, prev);
    }
  }

  lemma {:induction false} WalkOfOne(r: Reader, scope: AttrScope, run: Run, prev: Option<seq<Entry>>)
    ensures Walk(r, scope, [run], prev) == Calls(r, scope, r.parse(run.blob), run.count, prev)
  {
    WalkSnoc(r, scope, [], run, prev);
    assert [] + [run] == [run];
    assert Walk(r, scope, [], prev) + Calls(r, scope, r.parse(run.blob), run.count, prev)
      == Calls(r, scope, r.parse(run.blob), run.count, prev);
  }

  function Copies(blob: string, n: nat): seq<Run> {
    seq(n, _ => Run(blob, 1))
  }

  lemma {:induction false} CallsAreObserves(r: Reader, scope: AttrScope, runs: seq<Run>, prev: Option<seq<Entry>>)
    ensures Observes(Walk(r, scope, runs, prev))
  {
    if runs != [] {
      var n := |runs| - 1;
      CallsAreObserves(r, scope, runs[..n], prev);
      CallAt(r, scope, r.parse(runs[n].blob), runs[n].count, PrevAfter(r, runs[..n], prev));
    }
  }

  /** A counted run of a steady blob is the same as that many single rows. */
  lemma {:induction false} RunIsRows(c: Config, events: seq<Event>, r: Reader, scope: AttrScope, blob: string,
      n: nat, prev: Option<seq<Entry>>)
    requires n >= 1 && Begins(events) <= NO_SEG && (n > 1 ==> Steady(r.parse(blob)))
    ensures Replay(c, events + Calls(r, scope, r.parse(blob), n, prev))
      == Replay(c, events + Walk(r, scope, Copies(blob, n), prev))
  {
    var attrs := r.parse(blob);
    if n == 1 {
      assert Copies(blob, 1) == [Run(blob, 1)];
      WalkOfOne(r, scope, Run(blob, 1), prev);
    } else {
      var first, last := Calls(r, scope, attrs, n - 1, prev), Calls(r, scope, attrs, 1, Some(attrs));
      var rows := Copies(blob, n - 1);
      assert Copies(blob, n) == rows + [Run(blob, 1)];
      WalkSnoc(r, scope, rows, Run(blob, 1), prev);
      SteadyCallsSplit(r, scope, attrs, n - 1, prev);
      SplitCallsSameState(c, events, Calls(r, scope, attrs, n, prev), first, last);
      RunIsRows(c, events, r, scope, blob, n - 1, prev);
      SameStateThenSame(c, events + first, events + Walk(r, scope, rows, prev), last);
      ConcatAssociates(events, first, last);
      ConcatAssociates(events, Walk(r, scope, rows, prev), last);
    }
  }

  /** Every run is at least one row, and a repeated blob is steady. */
  ghost predicate WellRun(r: Reader, runs: seq<Run>) {
    forall i :: 0 <= i < |runs| ==> runs[i].count >= 1 && (runs[i].count > 1 ==> Steady(r.parse(runs[i].blob)))
  }

  lemma {:induction false} RowsOfRuns(r: Reader, runs: seq<Run>, prev: Option<seq<Entry>>)
    requires runs != [] && runs[|runs| - 1].count >= 1
    ensures var n := |runs| - 1;
      RowByRow(Expand(runs)) == RowByRow(Expand(runs[..n])) + Copies(runs[n].blob, runs[n].count)
    ensures PrevAfter(r, RowByRow(Expand(runs)), prev) == PrevAfter(r, runs, prev)
  {
    var n := |runs| - 1;
    var rows := Expand(runs);
    assert rows == Expand(runs[..n]) + seq(runs[n].count, _ => runs[n].blob);
    assert rows[|rows| - 1] == runs[n].blob;
  }

  /** Run coalescing is invisible: walking counted runs leaves exactly the state, and carries
      exactly the previous attributes, of walking their rows one at a time. */
  lemma {:induction false} CoalescingIsInvisible(c: Config, events: seq<Event>, r: Reader, scope: AttrScope,
      runs: seq<Run>, prev: Option<seq<Entry>>)
    requires Begins(events) <= NO_SEG && WellRun(r, runs)
    ensures Replay(c, events + Walk(r, scope, runs, prev))
      == Replay(c, events + Walk(r, scope, RowByRow(Expand(runs)), prev))
    ensures PrevAfter(r, runs, prev) == PrevAfter(r, RowByRow(Expand(runs)), prev)
  {
    if runs != [] {
      var n := |runs| - 1;
      var before, p, one := runs[..n], PrevAfter(r, runs[..n], prev), Copies(runs[n].blob, runs[n].count);
      var rows := RowByRow(Expand(before));
      CoalescingIsInvisible(c, events, r, scope, before, prev);
      RowsOfRuns(r, runs, prev);
      WalkOfConcat(r, scope, rows, one, prev);
      var w, v := Walk(r, scope, before, prev), Walk(r, scope, rows, prev);
      var calls := Calls(r, scope, r.parse(runs[n].blob), runs[n].count, p);
      CallsAreObserves(r, scope, before, prev);
      TimesOfCalls(events, w);
      RunIsRows(c, events + w, r, scope, runs[n].blob, runs[n].count, p);
      SameStateThenSame(c, events + w, events + v, Walk(r, scope, one, p));
      ConcatAssociates(events, w, calls);
      ConcatAssociates(events, v, Walk(r, scope, one, p));
    }
  }

  /** Plain or dictionary-encoded, cut into batches anywhere: two scans of the same rows agree. */
  lemma ScansAgree(c: Config, events: seq<Event>, r: Reader, scope: AttrScope, xs: seq<Run>, ys: seq<Run>,
      prev: Option<seq<Entry>>)
    requires Begins(events) <= NO_SEG && WellRun(r, xs) && WellRun(r, ys) && Expand(xs) == Expand(ys)
    ensures Replay(c, events + Walk(r, scope, xs, prev)) == Replay(c, events + Walk(r, scope, ys, prev))
    ensures PrevAfter(r, xs, prev) == PrevAfter(r, ys, prev)
  {
    CoalescingIsInvisible(c, events, r, scope, xs, prev);
    CoalescingIsInvisible(c, events, r, scope, ys, prev);
  }

  lemma {:induction false} ExpandOfConcat(xs: seq<Run>, ys: seq<Run>)
    ensures Expand(xs + ys) == Expand(xs) + Expand(ys)
  {
    if ys == [] {
      assert xs + ys == xs;
    } else {
      var n := |ys| - 1;
      ExpandOfConcat(xs, ys[..n]);
      assert (xs + ys)[..|xs + ys| - 1] == xs + ys[..n];
      ConcatAssociates(Expand(xs), Expand(ys[..n]), seq(ys[n].count, _ => ys[n].blob));
    }
  }

  lemma {:induction false} PresentOfConcat(xs: seq<Option<string>>, ys: seq<Option<string>>)
    ensures Present(xs + ys) == Present(xs) + Present(ys)
  {
    if ys == [] {
      assert xs + ys == xs;
    } else {
      var n := |ys| - 1;
      PresentOfConcat(xs, ys[..n]);
      assert (xs + ys)[..|xs + ys| - 1] == xs + ys[..n];
      ConcatAssociates(Present(xs), Present(ys[..n]), if ys[n].Some? then [ys[n].value] else []);
    }
  }

  /** Scanning a column in two batches, the previous attributes carried over, is scanning it. */
  lemma BatchesCompose(r: Reader, scope: AttrScope, xs: seq<Option<string>>, ys: seq<Option<string>>,
                       a: seq<Run>, b: seq<Run>,
                       p0: Option<seq<Entry>>, p1: Option<seq<Entry>>, p2: Option<seq<Entry>>,
                       log0: seq<Event>, log1: seq<Event>, log2: seq<Event>)
    requires Scanned(r, scope, xs, a, p0, p1, log0, log1) && Scanned(r, scope, ys, b, p1, p2, log1, log2)
    ensures Scanned(r, scope, xs + ys, a + b, p0, p2, log0, log2)
  {
    ExpandOfConcat(a, b);
    PresentOfConcat(xs, ys);
    WalkOfConcat(r, scope, a, b, p0);
    PrevOfConcat(r, a, b, p0);
    ConcatAssociates(log0, Walk(r, scope, a, p0), Walk(r, scope, b, p1));
  }

  lemma {:induction false} RunBlobsArePresent(runs: seq<Run>, i: nat)
    requires i < |runs| && runs[i].count >= 1
    ensures runs[i].blob in Expand(runs)
  {
    var n := |runs| - 1;
    if i < n {
      RunBlobsArePresent(runs[..n], i);
    } else {
      var copies := seq(runs[n].count, _ => runs[n].blob);
      assert copies[0] in copies;
    }
  }

  /** End to end, for either scanner: on a column of blobs with distinct keys and no NaN, what it leaves
      in the accumulator and carries on is what a row-at-a-time walk of the present rows leaves. */
  lemma {:induction false} ScanIsRowByRow(c: Config, r: Reader, scope: AttrScope,
                                          column: seq<Option<string>>, runs: seq<Run>,
                                          prev: Option<seq<Entry>>, prev': Option<seq<Entry>>,
                                          before: seq<Event>, after: seq<Event>)
    requires Scanned(r, scope, column, runs, prev, prev', before, after) && Begins(before) <= NO_SEG
    requires forall b :: b in Present(column) ==> DistinctNoNaN(r.parse(b))
    ensures Replay(c, after) == Replay(c, before + Walk(r, scope, RowByRow(Present(column)), prev))
    ensures prev' == PrevAfter(r, RowByRow(Present(column)), prev)
  {
    forall i | 0 <= i < |runs|
      ensures runs[i].count >= 1 && Steady(r.parse(runs[i].blob))
    {
      RunBlobsArePresent(runs, i);
      DistinctIsSteady(r.parse(runs[i].blob));
    }
    CoalescingIsInvisible(c, before, r, scope, runs, prev);
  }
}
