/** The window ladder: counting windows by ordinal is counting distinct window ids.

    `begin_segment` opens a window when a segment's id differs from the open one. That counts
    distinct ids exactly when no window is reopened, which nondecreasing times guarantee. */
module Ladder {
  import opened Basics
  import opened Sketches
  import opened Accumulator
  import opened Feed
  import opened Exactness

  function Distinct(ids: seq<int>): set<int> {
    set i | 0 <= i < |ids| :: ids[i]
  }

  /** No id comes back after a different one. */
  ghost predicate NeverReopens(ids: seq<int>) {
    forall i, j, k :: 0 <= i < j < k < |ids| && ids[i] == ids[k] ==> ids[i] == ids[j]
  }

  ghost predicate Nondecreasing(xs: seq<int>) {
    forall i, j :: 0 <= i < j < |xs| ==> xs[i] <= xs[j]
  }

  lemma MulMonotone(x: int, y: int, w: int)
    requires x <= y && w >= 1
    ensures x * w <= y * w
  {
  }

  lemma DivMonotone(a: int, b: int, w: int)
    requires a <= b && w >= 1
    ensures a / w <= b / w
  {
    var p, q := a / w, b / w;
    assert a == p * w + a % w && b == q * w + b % w;
    if q < p {
      MulMonotone(q + 1, p, w);
      assert false;
    }
  }

  // ----- windows

  /** Window `k` of the given width, at least 1, spans `time`. */
  predicate Covers(k: int, time: int, width: int) {
    var w := Max(width, 1);
    k * w <= time < (k + 1) * w
  }

  ghost predicate ShareWindow(t: int, u: int, width: int) {
    exists k :: Covers(k, t, width) && Covers(k, u, width)
  }

  /** `ws` are the windows that some of the segments start in. */
  ghost predicate AreWindows(ws: set<int>, times: seq<int>, segments: set<nat>, width: int) {
    forall k :: k in ws <==> exists s :: s in segments && s < |times| && Covers(k, times[s], width)
  }

  /** The segments start in `n` different windows. */
  ghost predicate InWindows(n: nat, times: seq<int>, segments: set<nat>, width: int) {
    exists ws :: AreWindows(ws, times, segments, width) && |ws| == n
  }

  /** No window is returned to after another one. */
  ghost predicate NeverReturns(times: seq<int>, width: int) {
    forall i, j, k :: 0 <= i < j < k < |times| && ShareWindow(times[i], times[k], width) ==>
      ShareWindow(times[i], times[j], width)
  }

  function Upto(n: nat): (r: set<nat>)
    ensures forall s: nat :: s in r <==> s < n
  {
    if n == 0 then {} else Upto(n - 1) + {n - 1}
  }

  lemma CoversWithin(k: int, j: int, time: int, width: int)
    requires Covers(k, time, width) && Covers(j, time, width)
    ensures k <= j
  {
    if k > j {
      MulMonotone(j + 1, k, Max(width, 1));
      assert false;
    }
  }

  /** A time is in exactly one window: the one its id names. */
  lemma CoversIff(k: int, time: int, width: int)
    ensures Covers(k, time, width) <==> k == WindowId(time, width)
  {
    var w, id := Max(width, 1), WindowId(time, width);
    assert time == id * w + time % w;
    assert (id + 1) * w == id * w + w;
    assert Covers(id, time, width);
    if Covers(k, time, width) {
      CoversWithin(k, id, time, width);
      CoversWithin(id, k, time, width);
    }
  }

  lemma ShareIff(t: int, u: int, width: int)
    ensures ShareWindow(t, u, width) <==> WindowId(t, width) == WindowId(u, width)
  {
    var k := WindowId(t, width);
    CoversIff(k, t, width);
    CoversIff(k, u, width);
    if j :| Covers(j, t, width) && Covers(j, u, width) {
      CoversIff(j, t, width);
      CoversIff(j, u, width);
    }
  }

  lemma {:induction false} ReturnsIff(times: seq<int>, width: int)
    ensures NeverReturns(times, width) <==> NeverReopens(Ids(times, width))
  {
    var ids := Ids(times, width);
    forall i, j | 0 <= i < |times| && 0 <= j < |times|
      ensures ShareWindow(times[i], times[j], width) <==> ids[i] == ids[j]
    {
      ShareIff(times[i], times[j], width);
    }
  }

  lemma {:induction false} IdsAreWindows(times: seq<int>, segments: set<nat>, width: int)
    ensures AreWindows(IdsAmong(times, segments, width), times, segments, width)
  {
    var ws := IdsAmong(times, segments, width);
    forall k
      ensures k in ws <==> exists s :: s in segments && s < |times| && Covers(k, times[s], width)
    {
      forall s | s in segments && s < |times|
        ensures Covers(k, times[s], width) <==> k == WindowId(times[s], width)
      {
        CoversIff(k, times[s], width);
      }
    }
  }

  lemma SortedNeverReopens(times: seq<int>, width: int)
    requires Nondecreasing(times)
    ensures NeverReopens(Ids(times, width))
  {
    var ids := Ids(times, width);
    forall i, j, k | 0 <= i < j < k < |ids| && ids[i] == ids[k]
      ensures ids[i] == ids[j]
    {
      DivMonotone(times[i], times[j], Max(width, 1));
      DivMonotone(times[j], times[k], Max(width, 1));
    }
  }

  /** Repeating the last id reopens nothing. */
  lemma RepeatReopensNothing(ids: seq<int>, x: int)
    requires ids != [] && x == ids[|ids| - 1]
    ensures NeverReopens(ids + [x]) <==> NeverReopens(ids)
  {
    var all, n := ids + [x], |ids|;
    assert forall i :: 0 <= i < n ==> all[i] == ids[i];
    if NeverReopens(ids) {
      forall i, j, k | 0 <= i < j < k < |all| && all[i] == all[k]
        ensures all[i] == all[j]
      {
        if k == n && j < n - 1 {
          assert ids[i] == ids[n - 1];
        }
      }
    }
    if NeverReopens(all) {
      assert forall i, j, k :: 0 <= i < j < k < n && all[i] == all[k] ==> all[i] == all[j];
    }
  }

  /** A changed id reopens a window exactly when it was seen before. */
  lemma ChangeReopensIffSeen(ids: seq<int>, x: int)
    requires ids == [] || x != ids[|ids| - 1]
    ensures NeverReopens(ids + [x]) <==> NeverReopens(ids) && x !in ids
  {
    var all, n := ids + [x], |ids|;
    assert forall i :: 0 <= i < n ==> all[i] == ids[i];
    if i :| 0 <= i < n && ids[i] == x {
      assert i < n - 1 < n && all[i] == all[n] && all[i] != all[n - 1];
    }
    if NeverReopens(all) {
      assert forall i, j, k :: 0 <= i < j < k < n && all[i] == all[k] ==> all[i] == all[j];
    }
  }

  /** The windows opened are at least the distinct ids, and exactly those when none is reopened. */
  lemma {:induction false} OpenedIsDistinctIff(ids: seq<int>)
    ensures Opened(ids) >= |Distinct(ids)|
    ensures Opened(ids) == |Distinct(ids)| <==> NeverReopens(ids)
  {
    if ids != [] {
      var n := |ids| - 1;
      var before, x := ids[..n], ids[n];
      OpenedIsDistinctIff(before);
      assert ids == before + [x];
      assert Distinct(ids) == Distinct(before) + {x};
      assert x in before <==> x in Distinct(before);
      if n > 0 && x == before[n - 1] {
        RepeatReopensNothing(before, x);
      } else {
        ChangeReopensIffSeen(before, x);
      }
    }
  }

  lemma {:induction false} OpenedSteps(ids: seq<int>, s: nat, t: nat)
    requires s <= t < |ids|
    ensures Opened(ids[..s + 1]) <= Opened(ids[..t + 1])
    ensures Opened(ids[..s + 1]) == Opened(ids[..t + 1]) <==> forall i :: s <= i <= t ==> ids[i] == ids[s]
    decreases t
  {
    if s < t {
      OpenedSteps(ids, s, t - 1);
      assert ids[..t + 1][..t] == ids[..t];
    }
  }

  lemma {:induction false} SameLaterId(ids: seq<int>, s: nat, t: nat)
    requires NeverReopens(ids) && s <= t < |ids|
    ensures Opened(ids[..s + 1]) == Opened(ids[..t + 1]) <==> ids[s] == ids[t]
  {
    OpenedSteps(ids, s, t);
    if ids[s] == ids[t] {
      forall i | s <= i <= t
        ensures ids[i] == ids[s]
      {
        if s < i < t {
          assert ids[s] == ids[i];
        }
      }
    }
  }

  /** Two segments share a window ordinal exactly when they share a window id. */
  lemma {:induction false} SameOrdinalSameId(ids: seq<int>, s: nat, t: nat)
    requires NeverReopens(ids) && s < |ids| && t < |ids|
    ensures Opened(ids[..s + 1]) == Opened(ids[..t + 1]) <==> ids[s] == ids[t]
  {
    if s <= t {
      SameLaterId(ids, s, t);
    } else {
      SameLaterId(ids, t, s);
    }
  }

  function Image(ks: set<nat>, f: nat -> int): set<int> {
    set k | k in ks :: f(k)
  }

  lemma ImageWith(ks: set<nat>, e: nat, f: nat -> int)
    ensures Image(ks + {e}, f) == Image(ks, f) + {f(e)}
    ensures f(e) in Image(ks, f) <==> exists k :: k in ks && f(k) == f(e)
  {
    assert forall k :: k in ks ==> f(k) in Image(ks + {e}, f);
    assert e in ks + {e};
  }

  lemma {:induction false} SameSizeImages(ks: set<nat>, f: nat -> int, g: nat -> int)
    requires forall s, t :: s in ks && t in ks ==> (f(s) == f(t) <==> g(s) == g(t))
    ensures |Image(ks, f)| == |Image(ks, g)|
    decreases |ks|
  {
    if ks == {} {
      assert Image(ks, f) == {} && Image(ks, g) == {};
    } else {
      var e :| e in ks;
      var rest := ks - {e};
      SameSizeImages(rest, f, g);
      ImageWith(rest, e, f);
      ImageWith(rest, e, g);
      assert ks == rest + {e};
      var a, b := Image(rest, f), Image(rest, g);
      assert f(e) in a <==> g(e) in b;
      if f(e) in a {
        assert a + {f(e)} == a && b + {g(e)} == b;
      }
      assert |a + {f(e)}| == |b + {g(e)}|;
    }
  }

  // ----- every value's windows

  /** A mark names a segment and, per level, the ordinal of the window that segment fell into. */
  ghost predicate MarkTells(m: Mark, widths: seq<int>, times: seq<int>) {
    && |m.windows| == |widths|
    && (m.seg != NO_SEG ==> m.seg < |times|)
    && forall l :: 0 <= l < |widths| ==>
         m.windows[l] == if m.seg < |times| then Opened(Ids(times, widths[l])[..m.seg + 1]) - 1 else NO_SEG
  }

  lemma MarkStillTells(m: Mark, widths: seq<int>, times: seq<int>, time: int)
    requires MarkTells(m, widths, times) && |times| < NO_SEG
    ensures MarkTells(m, widths, times + [time])
  {
    forall l | 0 <= l < |widths| && m.seg < |times|
      ensures Ids(times + [time], widths[l])[..m.seg + 1] == Ids(times, widths[l])[..m.seg + 1]
    {
      IdsSnoc(times, time, widths[l]);
    }
  }

  lemma MarkAfterTells(widths: seq<int>, times: seq<int>)
    requires |times| <= NO_SEG
    ensures MarkTells(MarkAfter(widths, times), widths, times)
  {
    forall l | 0 <= l < |widths| && times != []
      ensures Ids(times, widths[l])[..|times|] == Ids(times, widths[l])
    {
    }
  }

  lemma {:induction false} SightingsTell(c: Config, events: seq<Event>)
    requires |Times(events)| <= NO_SEG
    ensures forall h :: h in Sightings(c, events) ==> MarkTells(h.obs.mark, c.widths, Times(events))
  {
    if events != [] {
      var n := |events| - 1;
      var before := Times(events[..n]);
      SightingsTell(c, events[..n]);
      if events[n].Begin? {
        forall h | h in Sightings(c, events)
          ensures MarkTells(h.obs.mark, c.widths, Times(events))
        {
          MarkStillTells(h.obs.mark, c.widths, before, events[n].minTime);
        }
      } else {
        assert Times(events) == before;
        MarkAfterTells(c.widths, before);
      }
    }
  }

  /** The call says that the key `kh` carries the value `vh`. */
  predicate Carries(c: Config, e: Event, kh: u64, vh: u64) {
    e.Observe? && c.hash(e.name) == kh && c.hash(e.text) == vh
  }

  /** The segments in which the key `kh` was seen carrying the value `vh`. A segment is known by how
      many were begun before it. */
  function Holding(c: Config, events: seq<Event>, kh: u64, vh: u64): set<nat> {
    if events == [] then {}
    else
      var n := |events| - 1;
      var before, begun := Holding(c, events[..n], kh, vh), |Times(events[..n])|;
      if Carries(c, events[n], kh, vh) && begun > 0 then before + {begun - 1} else before
  }

  lemma {:induction false} HoldingSnoc(c: Config, events: seq<Event>, e: Event, kh: u64, vh: u64)
    ensures Holding(c, events + [e], kh, vh) ==
      if Carries(c, e, kh, vh) && Times(events) != [] then Holding(c, events, kh, vh) + {|Times(events)| - 1}
      else Holding(c, events, kh, vh)
  {
    assert (events + [e])[..|events|] == events;
  }

  ghost predicate HeldAt(c: Config, events: seq<Event>, i: nat, kh: u64, vh: u64, s: nat) {
    i < |events| && Carries(c, events[i], kh, vh) && |Times(events[..i])| == s + 1
  }

  lemma {:induction false} HeldAtSnoc(c: Config, events: seq<Event>, e: Event, i: nat, kh: u64, vh: u64, s: nat)
    ensures HeldAt(c, events + [e], i, kh, vh, s) <==>
      HeldAt(c, events, i, kh, vh, s) || (i == |events| && Carries(c, e, kh, vh) && |Times(events)| == s + 1)
  {
    var all := events + [e];
    if i < |events| {
      assert all[i] == events[i] && all[..i] == events[..i];
    } else if i == |events| {
      assert all[i] == e && all[..i] == events;
    }
  }

  /** In other words: the ordinals of the segments open at the calls that carry the value. */
  lemma {:induction false} HoldingMembers(c: Config, events: seq<Event>, kh: u64, vh: u64, s: nat)
    ensures s in Holding(c, events, kh, vh) <==> exists i: nat :: HeldAt(c, events, i, kh, vh, s)
    decreases |events|
  {
    if events != [] {
      var before, e := events[..|events| - 1], events[|events| - 1];
      assert events == before + [e];
      HoldingMembers(c, before, kh, vh, s);
      HoldingSnoc(c, before, e, kh, vh);
      forall i: nat
        ensures HeldAt(c, events, i, kh, vh, s) <==>
          HeldAt(c, before, i, kh, vh, s) || (i == |before| && Carries(c, e, kh, vh) && |Times(before)| == s + 1)
      {
        HeldAtSnoc(c, before, e, i, kh, vh, s);
      }
      assert HeldAt(c, events, |before|, kh, vh, s) <==>
        HeldAt(c, before, |before|, kh, vh, s) || (Carries(c, e, kh, vh) && |Times(before)| == s + 1);
    }
  }

  ghost predicate SeenThere(c: Config, events: seq<Event>, i: nat, h: Hit<Sighting>) {
    i < |events| && events[i].Observe? && h == Seen(c, MarkAfter(c.widths, Times(events[..i])), events[i])
  }

  /** The sightings are the `observe` calls, one each. */
  lemma {:induction false} SightingsAreCalls(c: Config, events: seq<Event>, h: Hit<Sighting>)
    ensures h in Sightings(c, events) <==> exists i: nat :: SeenThere(c, events, i, h)
    decreases |events|
  {
    if events != [] {
      var n := |events| - 1;
      var before := events[..n];
      SightingsAreCalls(c, before, h);
      if i: nat :| SeenThere(c, before, i, h) {
        assert before[..i] == events[..i];
        assert SeenThere(c, events, i, h);
      }
      if i: nat :| SeenThere(c, events, i, h) {
        if i < n {
          assert before[..i] == events[..i];
          assert SeenThere(c, before, i, h);
        }
      }
      if events[n].Observe? && h == Seen(c, MarkAfter(c.widths, Times(before)), events[n]) {
        assert SeenThere(c, events, n, h);
      }
    }
  }

  lemma {:induction false} TimesOfPrefix(events: seq<Event>, i: nat)
    requires i <= |events|
    ensures |Times(events[..i])| <= |Times(events)|
    decreases |events|
  {
    if i < |events| {
      var n := |events| - 1;
      TimesOfPrefix(events[..n], i);
      assert events[..n][..i] == events[..i];
    } else {
      assert events[..i] == events;
    }
  }

  /** The marks of one value of one key. */
  function MarksFor(c: Config, events: seq<Event>, kh: u64, vh: u64): seq<Mark> {
    Only(vh, ValueHits(Only(kh, Sightings(c, events))))
  }

  lemma {:induction false} OnlyMembers<O>(h: u64, hits: seq<Hit<O>>, o: O)
    ensures o in Only(h, hits) <==> Hit(h, o) in hits
  {
    if hits != [] {
      var n := |hits| - 1;
      OnlyMembers(h, hits[..n], o);
      assert hits == hits[..n] + [hits[n]];
    }
  }

  predicate SeenAs(h: Hit<Sighting>, kh: u64, vh: u64, m: Mark) {
    h.hash == kh && h.obs.text == vh && h.obs.mark == m
  }

  lemma MarkMembers(c: Config, events: seq<Event>, kh: u64, vh: u64, m: Mark)
    ensures m in MarksFor(c, events, kh, vh) <==> exists h :: h in Sightings(c, events) && SeenAs(h, kh, vh, m)
  {
    var all := Sightings(c, events);
    var os := Only(kh, all);
    OnlyMembers(vh, ValueHits(os), m);
    if m in MarksFor(c, events, kh, vh) {
      var j :| 0 <= j < |os| && ValueHits(os)[j] == Hit(vh, m);
      OnlyMembers(kh, all, os[j]);
      assert SeenAs(Hit(kh, os[j]), kh, vh, m);
    }
    if h :| h in all && SeenAs(h, kh, vh, m) {
      OnlyMembers(kh, all, h.obs);
      assert h == Hit(kh, h.obs);
      var j :| 0 <= j < |os| && os[j] == h.obs;
      assert ValueHits(os)[j] == Hit(vh, m);
    }
  }

  lemma {:induction false} HeldWhenMarked(c: Config, events: seq<Event>, kh: u64, vh: u64, m: Mark)
    requires m in MarksFor(c, events, kh, vh) && m.seg != NO_SEG
    ensures m.seg in Holding(c, events, kh, vh)
  {
    MarkMembers(c, events, kh, vh, m);
    var h :| h in Sightings(c, events) && SeenAs(h, kh, vh, m);
    SightingsAreCalls(c, events, h);
    var i: nat :| SeenThere(c, events, i, h);
    assert HeldAt(c, events, i, kh, vh, m.seg);
    HoldingMembers(c, events, kh, vh, m.seg);
  }

  lemma {:induction false} MarkedWhenHeld(c: Config, events: seq<Event>, kh: u64, vh: u64, i: nat, s: nat)
    requires Begins(events) <= NO_SEG && HeldAt(c, events, i, kh, vh, s)
    ensures s < Begins(events) && s in Ordinals(SegsOf(MarksFor(c, events, kh, vh)))
  {
    var ms, m := MarksFor(c, events, kh, vh), MarkAfter(c.widths, Times(events[..i]));
    var h := Seen(c, m, events[i]);
    TimesOfPrefix(events, i);
    assert SeenThere(c, events, i, h);
    SightingsAreCalls(c, events, h);
    assert SeenAs(h, kh, vh, m);
    MarkMembers(c, events, kh, vh, m);
    var j :| 0 <= j < |ms| && ms[j] == m;
    assert SegsOf(ms)[j] == s;
  }

  /** The segments along a value's marks are the segments holding it. */
  lemma {:induction false} SegmentsHeld(c: Config, events: seq<Event>, kh: u64, vh: u64)
    requires Begins(events) <= NO_SEG
    ensures Ordinals(SegsOf(MarksFor(c, events, kh, vh))) == Holding(c, events, kh, vh)
    ensures forall s :: s in Holding(c, events, kh, vh) ==> s < Begins(events)
  {
    var ms := MarksFor(c, events, kh, vh);
    forall s | s in Ordinals(SegsOf(ms))
      ensures s in Holding(c, events, kh, vh)
    {
      var i :| 0 <= i < |ms| && ms[i].seg == s;
      HeldWhenMarked(c, events, kh, vh, ms[i]);
    }
    forall s | s in Holding(c, events, kh, vh)
      ensures s in Ordinals(SegsOf(ms)) && s < Begins(events)
    {
      HoldingMembers(c, events, kh, vh, s);
      var i: nat :| HeldAt(c, events, i, kh, vh, s);
      MarkedWhenHeld(c, events, kh, vh, i, s);
    }
  }

  /** The ordinal of the window that segment `s` fell into. */
  function OrdinalOf(ids: seq<int>, s: nat): int {
    if s < |ids| then Opened(ids[..s + 1]) - 1 else -1
  }

  function IdOf(ids: seq<int>, s: nat): int {
    if s < |ids| then ids[s] else 0
  }

  /** The window ordinals along a value's marks are the ordinals of its segments. */
  lemma WindowsOfSegments(ms: seq<Mark>, widths: seq<int>, times: seq<int>, l: nat)
    requires |times| <= NO_SEG && l < |widths|
    requires forall m :: m in ms ==> MarkTells(m, widths, times)
    ensures forall m :: m in ms ==> |m.windows| == |widths|
    ensures var ids := Ids(times, widths[l]);
      Ordinals(WindowsOf(ms, l)) == Image(Ordinals(SegsOf(ms)), (s: nat) => OrdinalOf(ids, s))
  {
    var ids := Ids(times, widths[l]);
    var segs, ws, f := SegsOf(ms), WindowsOf(ms, l), (s: nat) => OrdinalOf(ids, s);
    forall i | 0 <= i < |ms|
      ensures segs[i] == NO_SEG ==> ws[i] == NO_SEG
      ensures segs[i] != NO_SEG ==> ws[i] == f(segs[i]) && ws[i] != NO_SEG
    {
      assert ms[i] in ms;
      if segs[i] != NO_SEG {
        OpenedBounds(ids[..segs[i] + 1]);
      }
    }
    assert forall i :: 0 <= i < |ms| && segs[i] != NO_SEG ==> segs[i] in Ordinals(segs) && ws[i] in Ordinals(ws);
  }

  lemma {:induction false} HeldMarksTell(c: Config, events: seq<Event>, kh: u64, vh: u64)
    requires |Times(events)| <= NO_SEG
    ensures forall m :: m in MarksFor(c, events, kh, vh) ==> MarkTells(m, c.widths, Times(events))
  {
    SightingsTell(c, events);
    forall m | m in MarksFor(c, events, kh, vh)
      ensures MarkTells(m, c.widths, Times(events))
    {
      MarkMembers(c, events, kh, vh, m);
      var h :| h in Sightings(c, events) && SeenAs(h, kh, vh, m);
    }
  }

  /** Counting window ordinals is counting window ids, when no window is reopened. */
  lemma {:induction false} OrdinalsCountIds(ms: seq<Mark>, widths: seq<int>, times: seq<int>, l: nat)
    requires |times| <= NO_SEG && l < |widths| && NeverReopens(Ids(times, widths[l]))
    requires forall m :: m in ms ==> MarkTells(m, widths, times)
    ensures forall m :: m in ms ==> |m.windows| == |widths|
    ensures var ids := Ids(times, widths[l]);
      |Ordinals(WindowsOf(ms, l))| == |Image(Ordinals(SegsOf(ms)), (s: nat) => IdOf(ids, s))|
  {
    var ids, segs := Ids(times, widths[l]), Ordinals(SegsOf(ms));
    var f, g := (s: nat) => OrdinalOf(ids, s), (s: nat) => IdOf(ids, s);
    WindowsOfSegments(ms, widths, times, l);
    assert forall i :: 0 <= i < |ms| ==> ms[i] in ms;
    assert forall s :: s in segs ==> s < |ids|;
    forall s, t | s in segs && t in segs
      ensures f(s) == f(t) <==> g(s) == g(t)
    {
      SameOrdinalSameId(ids, s, t);
    }
    SameSizeImages(segs, f, g);
  }

  /** The state of one retained value is the exact one. */
  lemma RetainedValue(c: Config, events: seq<Event>, kh: u64, vh: u64)
    requires Begins(events) <= NO_SEG
    requires kh in Replay(c, events).keys.entries && vh in Replay(c, events).keys.entries[kh].values.entries
    ensures var ms := MarksFor(c, events, kh, vh);
      && ms != [] && (forall m :: m in ms ==> |m.windows| == |c.widths|)
      && Replay(c, events).keys.entries[kh].values.entries[vh] == ExactValue(ms, |c.widths|)
  {
    TwoLevelRefinement(c, events);
    var hits := Sightings(c, events);
    var os := Only(kh, hits);
    OneKey(c, events, kh);
    OnlySeen(kh, hits);
    assert Replay(c, events).keys.entries[kh] == ExactKey(os, |c.widths|, c.valueCap);
    OnlyMarks(vh, os, |c.widths|);
  }

  /** The distinct window ids of some segments. */
  function IdsAmong(times: seq<int>, segments: set<nat>, width: int): set<int> {
    set s | s in segments && s < |times| :: WindowId(times[s], width)
  }

  lemma {:induction false} WindowsHeld(c: Config, events: seq<Event>, kh: u64, vh: u64, l: nat)
    requires |Times(events)| <= NO_SEG && Nondecreasing(Times(events)) && l < |c.widths|
    requires forall m :: m in MarksFor(c, events, kh, vh) ==> |m.windows| == |c.widths|
    ensures |Ordinals(WindowsOf(MarksFor(c, events, kh, vh), l))|
      == |IdsAmong(Times(events), Holding(c, events, kh, vh), c.widths[l])|
  {
    var ms, times, held := MarksFor(c, events, kh, vh), Times(events), Holding(c, events, kh, vh);
    var ids := Ids(times, c.widths[l]);
    SegmentsHeld(c, events, kh, vh);
    HeldMarksTell(c, events, kh, vh);
    SortedNeverReopens(times, c.widths[l]);
    OrdinalsCountIds(ms, c.widths, times, l);
    assert Image(held, (s: nat) => IdOf(ids, s)) == IdsAmong(times, held, c.widths[l]);
  }

  /** The window ladder. Fed in nondecreasing time order, every retained value's `segments` is the
      number of segments holding it, and at every level its `windows` is the number of different windows
      those segments start in. */
  lemma {:induction false} LadderIsExact(c: Config, events: seq<Event>, kh: u64, vh: u64)
    requires |Times(events)| <= NO_SEG && Nondecreasing(Times(events))
    requires kh in Replay(c, events).keys.entries && vh in Replay(c, events).keys.entries[kh].values.entries
    ensures var v, held := Replay(c, events).keys.entries[kh].values.entries[vh], Holding(c, events, kh, vh);
      && v.segments == |held| && |v.windows| == |c.widths|
      && (forall s :: s in held ==> s < |Times(events)|)
      && forall l :: 0 <= l < |c.widths| ==> InWindows(v.windows[l], Times(events), held, c.widths[l])
  {
    RetainedValue(c, events, kh, vh);
    SegmentsHeld(c, events, kh, vh);
    var v, held := Replay(c, events).keys.entries[kh].values.entries[vh], Holding(c, events, kh, vh);
    forall l | 0 <= l < |c.widths|
      ensures InWindows(v.windows[l], Times(events), held, c.widths[l])
    {
      WindowsHeld(c, events, kh, vh, l);
      IdsAreWindows(Times(events), held, c.widths[l]);
    }
  }

  lemma {:induction false} DistinctAreWindows(times: seq<int>, width: int)
    ensures Distinct(Ids(times, width)) == IdsAmong(times, Upto(|times|), width)
  {
    var ids, all := Ids(times, width), Upto(|times|);
    assert forall s :: 0 <= s < |times| ==> ids[s] == WindowId(times[s], width) && s in all;
  }

  lemma {:induction false} OneWindowSet(a: set<int>, b: set<int>, times: seq<int>, segments: set<nat>, width: int)
    requires AreWindows(a, times, segments, width) && AreWindows(b, times, segments, width)
    ensures a == b
  {
    forall k
      ensures k in a <==> k in b
    {
    }
  }

  /** At every level the accumulator's window count is the number of different windows the segments start
      in, exactly when the feeding order never returns to a window; nondecreasing times never do. */
  lemma {:induction false} WindowsOpenedIff(c: Config, events: seq<Event>, l: nat)
    requires |Times(events)| <= NO_SEG && l < |c.widths|
    ensures var times, width := Times(events), c.widths[l];
      && (InWindows(Replay(c, events).clock.windows[l], times, Upto(|times|), width) <==> NeverReturns(times, width))
      && (Nondecreasing(times) ==> NeverReturns(times, width))
  {
    var times, width, n := Times(events), c.widths[l], Replay(c, events).clock.windows[l];
    var ids, ws := Ids(times, width), IdsAmong(times, Upto(|times|), width);
    ClockShowsTimes(c, events);
    assert Shows(Replay(c, events).clock, c.widths, times, l);
    OpenedIsDistinctIff(ids);
    DistinctAreWindows(times, width);
    IdsAreWindows(times, Upto(|times|), width);
    ReturnsIff(times, width);
    if InWindows(n, times, Upto(|times|), width) {
      var other :| AreWindows(other, times, Upto(|times|), width) && |other| == n;
      OneWindowSet(ws, other, times, Upto(|times|), width);
    }
    if Nondecreasing(times) {
      SortedNeverReopens(times, width);
    }
  }
}
