/** What the accumulator's counters mean.

    `ExactKey` and `ExactValue` are the simple definitions: sums over the observations of a key,
    and sizes of sets of segments and windows. The theorem `TwoLevelRefinement` says the whole
    nested, capped state is that exact table cut at both levels. */
module Exactness {
  import opened Basics
  import opened Sketches
  import opened Accumulator
  import opened Feed

  // ----- "last ordinal seen" against a set

  /** How often a sequence of ordinals changes, starting from the sentinel. */
  function Changes(xs: seq<nat>): nat {
    if xs == [] then 0
    else
      var n := |xs| - 1;
      Bump(Changes(xs[..n]), if n == 0 then NO_SEG else xs[n - 1], xs[n])
  }

  /** The ordinals in a sequence, not counting the sentinel. */
  function Ordinals(xs: seq<nat>): set<nat> {
    set i | 0 <= i < |xs| && xs[i] != NO_SEG :: xs[i]
  }

  /** `b` does not come before `a`; the sentinel comes first. */
  predicate Follows(a: nat, b: nat) {
    a == NO_SEG || (b != NO_SEG && a <= b)
  }

  ghost predicate Ordered(xs: seq<nat>) {
    forall i, j :: 0 <= i < j < |xs| ==> Follows(xs[i], xs[j])
  }

  lemma {:induction false} ChangesSnoc(xs: seq<nat>, x: nat)
    ensures Changes(xs + [x]) == Bump(Changes(xs), if xs == [] then NO_SEG else xs[|xs| - 1], x)
  {
    assert (xs + [x])[..|xs|] == xs;
  }

  lemma OrdinalsSnoc(xs: seq<nat>, x: nat)
    requires Ordered(xs + [x])
    ensures x == NO_SEG || (xs != [] && xs[|xs| - 1] == x) ==> Ordinals(xs + [x]) == Ordinals(xs)
    ensures x != NO_SEG && (xs == [] || xs[|xs| - 1] != x) ==>
      x !in Ordinals(xs) && Ordinals(xs + [x]) == Ordinals(xs) + {x}
  {
    var ys, n := xs + [x], |xs|;
    forall i | 0 <= i < n
      ensures Follows(xs[i], x) && Follows(xs[i], xs[n - 1])
    {
      assert Follows(ys[i], ys[n]) && (i < n - 1 ==> Follows(ys[i], ys[n - 1]));
    }
    assert forall i :: 0 <= i < n ==> ys[i] == xs[i];
    assert x != NO_SEG ==> ys[n] in Ordinals(ys);
    assert forall v :: v in Ordinals(xs) ==> v in Ordinals(ys);
    assert forall v :: v in Ordinals(ys) ==> v in Ordinals(xs) || v == x;
  }

  lemma {:induction false} ChangesCountsOrdinals(xs: seq<nat>)
    requires Ordered(xs)
    ensures Changes(xs) == |Ordinals(xs)|
  {
    if xs != [] {
      var n := |xs| - 1;
      assert xs == xs[..n] + [xs[n]];
      ChangesCountsOrdinals(xs[..n]);
      ChangesSnoc(xs[..n], xs[n]);
      OrdinalsSnoc(xs[..n], xs[n]);
      assert n > 0 ==> Follows(xs[n - 1], xs[n]);
    }
  }

  // ----- one value

  function SegsOf(ms: seq<Mark>): seq<nat> {
    seq(|ms|, i requires 0 <= i < |ms| => ms[i].seg)
  }

  function WindowsOf(ms: seq<Mark>, l: nat): seq<nat>
    requires forall m :: m in ms ==> l < |m.windows|
  {
    seq(|ms|, i requires 0 <= i < |ms| => ms[i].windows[l])
  }

  ghost predicate Leveled(ms: seq<Mark>, levels: nat) {
    forall m :: m in ms ==> |m.windows| == levels
  }

  /** Between two marks, the segment and every window only move forward. */
  predicate MarksFollow(a: Mark, b: Mark) {
    && Follows(a.seg, b.seg)
    && forall l :: 0 <= l < |a.windows| && l < |b.windows| ==> Follows(a.windows[l], b.windows[l])
  }

  ghost predicate Forward(ms: seq<Mark>, levels: nat) {
    Leveled(ms, levels) && Chained(MarksFollow, ms)
  }

  /** The simple definition of a value's state: how many segments and windows it was seen in. */
  function ExactValue(ms: seq<Mark>, levels: nat): ValueAcc
    requires ms != [] && forall m :: m in ms ==> |m.windows| == levels
  {
    var last := ms[|ms| - 1];
    ValueAcc(
      |Ordinals(SegsOf(ms))|,
      last.seg,
      seq(levels, l requires 0 <= l < levels => |Ordinals(WindowsOf(ms, l))|),
      last.windows)
  }

  /** The value's state before its last mark. */
  function ValueBefore(ms: seq<Mark>, levels: nat): ValueAcc
    requires ms != []
  {
    if |ms| == 1 then FreshValue(levels) else Fold(ValueRule(), ms[..|ms| - 1])
  }

  lemma {:induction false} ValueFolds(ms: seq<Mark>, levels: nat)
    requires ms != [] && Leveled(ms, levels)
    ensures Fold(ValueRule(), ms) == ValueStep(ValueBefore(ms, levels), ms[|ms| - 1])
  {
    assert ms[0] in ms;
  }

  lemma {:induction false} SegsAndWindowsSnoc(ms: seq<Mark>, levels: nat)
    requires ms != [] && Leveled(ms, levels)
    ensures var n := |ms| - 1;
      && SegsOf(ms) == SegsOf(ms[..n]) + [ms[n].seg] && |ms[n].windows| == levels && Leveled(ms[..n], levels)
      && forall l :: 0 <= l < levels ==> WindowsOf(ms, l) == WindowsOf(ms[..n], l) + [ms[n].windows[l]]
  {
    var n := |ms| - 1;
    assert ms[n] in ms;
    assert forall m :: m in ms[..n] ==> m in ms;
  }

  lemma {:induction false} FoldOfMarks(ms: seq<Mark>, levels: nat)
    requires ms != [] && Leveled(ms, levels)
    ensures var v, last := Fold(ValueRule(), ms), ms[|ms| - 1];
      && v.segments == Changes(SegsOf(ms)) && v.lastSeg == last.seg
      && |v.windows| == levels && v.lastWindow == last.windows
      && forall l :: 0 <= l < levels ==> v.windows[l] == Changes(WindowsOf(ms, l))
    decreases |ms|
  {
    var n := |ms| - 1;
    ValueFolds(ms, levels);
    SegsAndWindowsSnoc(ms, levels);
    if n > 0 {
      FoldOfMarks(ms[..n], levels);
    }
    ChangesSnoc(SegsOf(ms[..n]), ms[n].seg);
    forall l | 0 <= l < levels
      ensures Fold(ValueRule(), ms).windows[l] == Changes(WindowsOf(ms, l))
    {
      ChangesSnoc(WindowsOf(ms[..n], l), ms[n].windows[l]);
    }
  }

  lemma ForwardOrders(ms: seq<Mark>, levels: nat)
    requires Forward(ms, levels)
    ensures Ordered(SegsOf(ms))
    ensures forall l :: 0 <= l < levels ==> Ordered(WindowsOf(ms, l))
  {
    assert forall i, j :: 0 <= i < j < |ms| ==> MarksFollow(ms[i], ms[j]);
    assert forall i :: 0 <= i < |ms| ==> ms[i] in ms;
  }

  lemma {:induction false} FoldIsExactValue(ms: seq<Mark>, levels: nat)
    requires ms != [] && Forward(ms, levels)
    ensures Fold(ValueRule(), ms) == ExactValue(ms, levels)
  {
    FoldOfMarks(ms, levels);
    ForwardOrders(ms, levels);
    ChangesCountsOrdinals(SegsOf(ms));
    forall l | 0 <= l < levels
      ensures Changes(WindowsOf(ms, l)) == |Ordinals(WindowsOf(ms, l))|
    {
      ChangesCountsOrdinals(WindowsOf(ms, l));
    }
    assert Fold(ValueRule(), ms).windows == ExactValue(ms, levels).windows;
  }

  // ----- one key

  function Sum(f: Sighting -> nat, os: seq<Sighting>): nat {
    if os == [] then 0 else Sum(f, os[..|os| - 1]) + f(os[|os| - 1])
  }

  function Largest(f: Sighting -> nat, os: seq<Sighting>): nat {
    if os == [] then 0 else Max(Largest(f, os[..|os| - 1]), f(os[|os| - 1]))
  }

  function Rows(o: Sighting): nat { o.count }

  function MarksOf(os: seq<Sighting>): seq<Mark> {
    seq(|os|, i requires 0 <= i < |os| => os[i].mark)
  }

  /** The observations of a key as its value sketch sees them. */
  function ValueHits(os: seq<Sighting>): seq<Hit<Mark>> {
    seq(|os|, i requires 0 <= i < |os| => Hit(os[i].text, os[i].mark))
  }

  function ExactValues(os: seq<Sighting>, levels: nat): map<u64, ValueAcc>
    requires forall o :: o in os ==> |o.mark.windows| == levels
  {
    var hits := ValueHits(os);
    map t | t in Hashes(hits) :: OnlyMarks(t, os, levels); ExactValue(Only(t, hits), levels)
  }

  /** The simple definition of a key's state. Its value table is cut to the value cap. */
  function ExactKey(os: seq<Sighting>, levels: nat, valueCap: nat): KeyAcc
    requires os != [] && forall o :: o in os ==> |o.mark.windows| == levels
  {
    KeyAcc(
      os[0].name,
      os[0].scope,
      Sum(Rows, os),
      Sum(StringRows, os),
      Sum(StringBytes, os),
      Largest(StringLength, os),
      |Ordinals(SegsOf(MarksOf(os)))|,
      os[|os| - 1].mark.seg,
      Sum(NewRuns, os),
      Truncate(ExactValues(os, levels), Max(valueCap, 1)))
  }

  /** The marks of one value are a subsequence of the marks of its key. */
  lemma {:induction false} OnlyMarks(t: u64, os: seq<Sighting>, levels: nat)
    requires forall o :: o in os ==> |o.mark.windows| == levels
    ensures forall m :: m in Only(t, ValueHits(os)) ==> m in MarksOf(os) && |m.windows| == levels
    ensures t in Hashes(ValueHits(os)) <==> Only(t, ValueHits(os)) != []
  {
    OnlySeen(t, ValueHits(os));
    if os != [] {
      var n := |os| - 1;
      assert os[n] in os;
      OnlyMarks(t, os[..n], levels);
      HitsOfSightings(os);
      OnlySnoc(t, ValueHits(os[..n]), Hit(os[n].text, os[n].mark));
      assert MarksOf(os) == MarksOf(os[..n]) + [os[n].mark];
    }
  }

  /** The key's state before its last sighting. */
  function KeyBefore(os: seq<Sighting>, valueCap: nat): KeyAcc
    requires os != []
  {
    if |os| == 1 then FreshKey(os[0], valueCap) else Fold(KeyRule(valueCap), os[..|os| - 1])
  }

  lemma {:induction false} KeyFolds(os: seq<Sighting>, valueCap: nat)
    requires os != []
    ensures Fold(KeyRule(valueCap), os) == KeyStep(KeyBefore(os, valueCap), os[|os| - 1])
  {
  }

  lemma SegsOfSightings(os: seq<Sighting>)
    requires os != []
    ensures var n := |os| - 1; var before := SegsOf(MarksOf(os[..n]));
      && SegsOf(MarksOf(os)) == before + [os[n].mark.seg]
      && |before| == n && (n > 0 ==> before[n - 1] == os[n - 1].mark.seg)
  {
  }

  lemma HitsOfSightings(os: seq<Sighting>)
    requires os != []
    ensures var n := |os| - 1; ValueHits(os) == ValueHits(os[..n]) + [Hit(os[n].text, os[n].mark)]
  {
  }

  lemma {:induction false} KeyNames(os: seq<Sighting>, valueCap: nat)
    requires os != []
    ensures var k := Fold(KeyRule(valueCap), os);
      k.name == os[0].name && k.scope == os[0].scope && k.lastSeg == os[|os| - 1].mark.seg
  {
    var n := |os| - 1;
    if n > 0 {
      KeyNames(os[..n], valueCap);
    }
  }

  lemma {:induction false} KeySums(os: seq<Sighting>, valueCap: nat)
    requires os != []
    ensures var k := Fold(KeyRule(valueCap), os);
      && k.rowsPresent == Sum(Rows, os) && k.rowsString == Sum(StringRows, os)
      && k.strLenSum == Sum(StringBytes, os) && k.strLenMax == Largest(StringLength, os)
      && k.runs == Sum(NewRuns, os)
  {
    var n := |os| - 1;
    if n > 0 {
      KeySums(os[..n], valueCap);
    }
  }

  lemma {:induction false} KeySegments(os: seq<Sighting>, valueCap: nat)
    requires os != []
    ensures Fold(KeyRule(valueCap), os).segmentsPresent == Changes(SegsOf(MarksOf(os)))
  {
    var n := |os| - 1;
    if n > 0 {
      KeySegments(os[..n], valueCap);
      KeyNames(os[..n], valueCap);
    }
    KeyFolds(os, valueCap);
    SegsOfSightings(os);
    ChangesSnoc(SegsOf(MarksOf(os[..n])), os[n].mark.seg);
  }

  lemma {:induction false} KeyValues(os: seq<Sighting>, valueCap: nat)
    requires os != []
    ensures Fold(KeyRule(valueCap), os).values == Run(ValueRule(), Empty(valueCap), ValueHits(os))
  {
    var n := |os| - 1;
    if n > 0 {
      KeyValues(os[..n], valueCap);
    }
    KeyFolds(os, valueCap);
    HitsOfSightings(os);
    RunSnoc(ValueRule(), Empty(valueCap), ValueHits(os[..n]), Hit(os[n].text, os[n].mark));
  }

  predicate SightingsFollow(a: Sighting, b: Sighting) {
    MarksFollow(a.mark, b.mark)
  }

  ghost predicate Advancing(os: seq<Sighting>, levels: nat) {
    && (forall o :: o in os ==> |o.mark.windows| == levels)
    && Chained(SightingsFollow, os)
  }

  lemma {:induction false} TallyIsExactValue(os: seq<Sighting>, levels: nat, t: u64)
    requires Advancing(os, levels) && t in Hashes(ValueHits(os))
    ensures t in Tally(ValueRule(), ValueHits(os))
    ensures Tally(ValueRule(), ValueHits(os))[t] == ExactValues(os, levels)[t]
  {
    var hits := ValueHits(os);
    assert ObsOf(hits) == MarksOf(os);
    assert forall i, j :: 0 <= i < j < |os| ==> SightingsFollow(os[i], os[j]);
    TallyAt(ValueRule(), hits, t);
    OnlyMarks(t, os, levels);
    OnlyKeepsOrder(MarksFollow, t, hits);
    FoldIsExactValue(Only(t, hits), levels);
  }

  lemma {:induction false} KeyValuesAreExact(os: seq<Sighting>, levels: nat, valueCap: nat)
    requires os != [] && Advancing(os, levels)
    ensures Fold(KeyRule(valueCap), os).values == Truncate(ExactValues(os, levels), Max(valueCap, 1))
  {
    var hits := ValueHits(os);
    KeyValues(os, valueCap);
    RunIsTruncatedTally(ValueRule(), valueCap, hits);
    TallyKeys(ValueRule(), hits);
    var exact := ExactValues(os, levels);
    forall t | t in Hashes(hits)
      ensures Tally(ValueRule(), hits)[t] == exact[t]
    {
      TallyIsExactValue(os, levels, t);
    }
    assert Tally(ValueRule(), hits) == exact;
  }

  lemma FoldIsExactKey(os: seq<Sighting>, levels: nat, valueCap: nat)
    requires os != [] && Advancing(os, levels)
    ensures Fold(KeyRule(valueCap), os) == ExactKey(os, levels, valueCap)
  {
    KeyNames(os, valueCap);
    KeySums(os, valueCap);
    KeySegments(os, valueCap);
    KeyValuesAreExact(os, levels, valueCap);
    var segs := SegsOf(MarksOf(os));
    forall i, j | 0 <= i < j < |segs|
      ensures Follows(segs[i], segs[j])
    {
      assert SightingsFollow(os[i], os[j]);
    }
    ChangesCountsOrdinals(segs);
  }

  // ----- the stream of sightings a run of events makes

  /** The `observe` calls as the sketches see them, each at the mark the calls before it give. */
  function Sightings(c: Config, events: seq<Event>): seq<Hit<Sighting>> {
    if events == [] then []
    else
      var n := |events| - 1;
      var before := Sightings(c, events[..n]);
      if events[n].Observe? then before + [Seen(c, MarkAfter(c.widths, Times(events[..n])), events[n])] else before
  }

  lemma {:induction false} ReplayIsRun(c: Config, events: seq<Event>)
    requires Begins(events) <= NO_SEG
    ensures Replay(c, events).keys == Run(KeyRule(c.valueCap), Empty(c.keyCap), Sightings(c, events))
  {
    if events != [] {
      var n := |events| - 1;
      ReplayIsRun(c, events[..n]);
      if events[n].Observe? {
        ClockShowsMark(c, events[..n]);
        RunSnoc(KeyRule(c.valueCap), Empty(c.keyCap), Sightings(c, events[..n]),
          Seen(c, MarkAfter(c.widths, Times(events[..n])), events[n]));
      }
    }
  }

  /** Beginning a segment only moves the marks forward. */
  lemma MarkMovesForward(widths: seq<int>, times: seq<int>, time: int)
    requires |times| < NO_SEG
    ensures MarksFollow(MarkAfter(widths, times), MarkAfter(widths, times + [time]))
  {
    var a, b := MarkAfter(widths, times), MarkAfter(widths, times + [time]);
    forall l | 0 <= l < |widths|
      ensures Follows(a.windows[l], b.windows[l])
    {
      var ids := Ids(times, widths[l]);
      IdsSnoc(times, time, widths[l]);
      OpenedSnoc(ids, WindowId(time, widths[l]));
      OpenedBounds(ids);
    }
  }

  lemma MarksFollowTransitive(a: Mark, b: Mark, d: Mark)
    requires MarksFollow(a, b) && MarksFollow(b, d) && |a.windows| == |b.windows| == |d.windows|
    ensures MarksFollow(a, d)
  {
  }

  lemma MarkFollowsItself(m: Mark)
    ensures MarksFollow(m, m)
  {
  }

  /** Nothing seen so far is ahead of the mark. */
  lemma {:induction false} SightingsBeforeNow(c: Config, events: seq<Event>)
    requires Begins(events) <= NO_SEG
    ensures forall h :: h in Sightings(c, events) ==>
      |h.obs.mark.windows| == |c.widths| && MarksFollow(h.obs.mark, MarkAfter(c.widths, Times(events)))
  {
    if events != [] {
      var n := |events| - 1;
      var times := Times(events[..n]);
      SightingsBeforeNow(c, events[..n]);
      var now := MarkAfter(c.widths, times);
      if events[n].Begin? {
        MarkMovesForward(c.widths, times, events[n].minTime);
        forall h | h in Sightings(c, events)
          ensures MarksFollow(h.obs.mark, MarkAfter(c.widths, Times(events)))
        {
          MarksFollowTransitive(h.obs.mark, now, MarkAfter(c.widths, Times(events)));
        }
      } else {
        assert Times(events) == times;
        MarkFollowsItself(now);
      }
    }
  }

  /** Every run of fewer than `u32::MAX` segments sees its segments and windows in order. */
  lemma {:induction false} SightingsAdvance(c: Config, events: seq<Event>)
    requires Begins(events) <= NO_SEG
    ensures Advancing(ObsOf(Sightings(c, events)), |c.widths|)
  {
    SightingsBeforeNow(c, events);
    var all := Sightings(c, events);
    if events != [] {
      var n := |events| - 1;
      SightingsAdvance(c, events[..n]);
      if events[n].Observe? {
        SightingsBeforeNow(c, events[..n]);
        var m := |all| - 1;
        assert all[..m] == Sightings(c, events[..n]);
        assert ObsOf(all)[..m] == ObsOf(all[..m]);
        forall i, j | 0 <= i < j < |all|
          ensures SightingsFollow(ObsOf(all)[i], ObsOf(all)[j])
        {
          if j == m {
            assert all[i] in all[..m];
          } else {
            assert SightingsFollow(ObsOf(all[..m])[i], ObsOf(all[..m])[j]);
          }
        }
      }
    }
  }

  lemma {:induction false} OneKey(c: Config, events: seq<Event>, h: u64)
    requires Begins(events) <= NO_SEG
    ensures Advancing(Only(h, Sightings(c, events)), |c.widths|)
  {
    SightingsAdvance(c, events);
    OnlyKeepsOrder(SightingsFollow, h, Sightings(c, events));
  }

  /** The simple definition of the whole accumulator, from the calls alone: no cap on keys, no state. */
  function ExactTable(c: Config, events: seq<Event>): map<u64, KeyAcc>
    requires Begins(events) <= NO_SEG
  {
    var hits := Sightings(c, events);
    map h | h in Hashes(hits) ::
      OneKey(c, events, h); OnlySeen(h, hits); ExactKey(Only(h, hits), |c.widths|, c.valueCap)
  }

  lemma {:induction false} TallyIsExactKey(c: Config, events: seq<Event>, h: u64)
    requires Begins(events) <= NO_SEG && h in Hashes(Sightings(c, events))
    ensures h in Tally(KeyRule(c.valueCap), Sightings(c, events))
    ensures Tally(KeyRule(c.valueCap), Sightings(c, events))[h] == ExactTable(c, events)[h]
  {
    TallyAt(KeyRule(c.valueCap), Sightings(c, events), h);
    OneKey(c, events, h);
    FoldIsExactKey(Only(h, Sightings(c, events)), |c.widths|, c.valueCap);
  }

  /** Two-level refinement over every run: the nested capped state is the exact table cut to the
      `keyCap` smallest key hashes and, inside each key, to the `valueCap` smallest value hashes.
      All retained counters are complete. */
  lemma TwoLevelRefinement(c: Config, events: seq<Event>)
    requires Begins(events) <= NO_SEG
    ensures Replay(c, events).keys == Truncate(ExactTable(c, events), Max(c.keyCap, 1))
  {
    var hits, r := Sightings(c, events), KeyRule(c.valueCap);
    ReplayIsRun(c, events);
    RunIsTruncatedTally(r, c.keyCap, hits);
    TallyKeys(r, hits);
    var exact := ExactTable(c, events);
    forall h | h in Hashes(hits)
      ensures Tally(r, hits)[h] == exact[h]
    {
      TallyIsExactKey(c, events, h);
    }
    assert Tally(r, hits) == exact;
  }

  // ----- rows and time range

  function RowsAdded(events: seq<Event>): nat {
    if events == [] then 0
    else
      var e := events[|events| - 1];
      RowsAdded(events[..|events| - 1]) + if e.AddRows? then e.n else 0
  }

  /** `lo` and `hi` bound the times of every segment begun, and each is one of them or where it started. */
  ghost predicate Spans(events: seq<Event>, lo: int, hi: int) {
    && (forall e :: e in events && e.Begin? ==> lo <= e.minTime && e.maxTime <= hi)
    && (lo == I64_MAX || exists e :: e in events && e.Begin? && e.minTime == lo)
    && (hi == I64_MIN || exists e :: e in events && e.Begin? && e.maxTime == hi)
  }

  /** The rows and the time range the accumulator reports are those of the calls. */
  lemma {:induction false} TotalsAreExact(c: Config, events: seq<Event>)
    ensures var s := Replay(c, events); s.rows == RowsAdded(events) && Spans(events, s.minTime, s.maxTime)
    decreases |events|
  {
    if events != [] {
      var before, e := events[..|events| - 1], events[|events| - 1];
      TotalsAreExact(c, before);
      assert events == before + [e];
      var s := Replay(c, before);
      SpansSnoc(before, e, s.minTime, s.maxTime);
    }
  }

  lemma {:induction false} SpansSnoc(events: seq<Event>, e: Event, lo: int, hi: int)
    requires Spans(events, lo, hi)
    ensures if e.Begin? then Spans(events + [e], Min(lo, e.minTime), Max(hi, e.maxTime))
      else Spans(events + [e], lo, hi)
  {
    assert e in events + [e];
    assert forall x :: x in events ==> x in events + [e];
  }
}
