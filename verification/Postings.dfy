/** Posting counts (crates/imbh-attrstats/src/accum.rs): the sums a key's sketch reports. */
module Postings {
  import opened Basics
  import opened Sketches
  import opened Accumulator
  import opened Feed
  import opened Ladder

  /** The sum of a table, taken from the largest hash down. */
  function SumOf(m: map<u64, nat>): nat
    decreases |m|
  {
    if |m| == 0 then 0
    else
      assert m.Keys != {};
      var h := MaxOf(m.Keys);
      assert |m - {h}| < |m| by { assert (m - {h}).Keys == m.Keys - {h}; }
      m[h] + SumOf(m - {h})
  }

  /** `KeyAcc::postings`. */
  function SegmentPostings(key: KeyAcc): nat {
    SumOf(map t | t in key.values.entries :: key.values.entries[t].segments)
  }

  /** `KeyAcc::window_postings`. */
  function WindowPostings(key: KeyAcc, level: nat): nat
    requires forall t :: t in key.values.entries ==> level < |key.values.entries[t].windows|
  {
    SumOf(map t | t in key.values.entries :: key.values.entries[t].windows[level])
  }

  /** Every pair of a hash and a member of its set. */
  ghost function PairsOf<T>(sets: map<u64, set<T>>): set<(u64, T)> {
    set h, x | h in sets && x in sets[h] :: (h, x)
  }

  lemma {:induction false} PairsWithout<T>(sets: map<u64, set<T>>, h: u64)
    requires h in sets
    ensures |PairsOf(sets)| == |PairsOf(sets - {h})| + |sets[h]|
  {
    var mine := set x | x in sets[h] :: (h, x);
    assert PairsOf(sets) == PairsOf(sets - {h}) + mine;
    assert PairsOf(sets - {h}) !! mine;
    TaggedSize(h, sets[h]);
  }

  lemma {:induction false} TaggedSize<T>(h: u64, xs: set<T>)
    ensures |set x | x in xs :: (h, x)| == |xs|
    decreases |xs|
  {
    if xs != {} {
      var x :| x in xs;
      var rest := xs - {x};
      TaggedSize(h, rest);
      assert (set y | y in xs :: (h, y)) == (set y | y in rest :: (h, y)) + {(h, x)};
    }
  }

  /** A sum of set sizes counts pairs. */
  lemma {:induction false} SumCountsPairs<T>(m: map<u64, nat>, sets: map<u64, set<T>>)
    requires m.Keys == sets.Keys && forall h :: h in m ==> m[h] == |sets[h]|
    ensures SumOf(m) == |PairsOf(sets)|
    decreases |m|
  {
    if |m| == 0 {
      assert PairsOf(sets) == {};
    } else {
      assert m.Keys != {};
      var h := MaxOf(m.Keys);
      assert (m - {h}).Keys == m.Keys - {h};
      SumCountsPairs(m - {h}, sets - {h});
      PairsWithout(sets, h);
    }
  }

  /** Per retained value of a key, the segments holding it. */
  ghost function SegmentsPerValue(c: Config, events: seq<Event>, kh: u64, values: set<u64>): map<u64, set<nat>> {
    map t | t in values :: Holding(c, events, kh, t)
  }

  /** A tracked key's `postings` is the number of distinct pairs of a retained value and a segment
      holding it, in whatever order the segments were fed. */
  lemma {:induction false} PostingsCountSegments(c: Config, events: seq<Event>, kh: u64)
    requires Begins(events) <= NO_SEG && kh in Replay(c, events).keys.entries
    ensures var key := Replay(c, events).keys.entries[kh];
      SegmentPostings(key) == |PairsOf(SegmentsPerValue(c, events, kh, key.values.entries.Keys))|
  {
    var values := Replay(c, events).keys.entries[kh].values.entries;
    var counts, sets := map t | t in values :: values[t].segments, SegmentsPerValue(c, events, kh, values.Keys);
    forall t | t in values
      ensures values[t].segments == |Holding(c, events, kh, t)|
    {
      RetainedValue(c, events, kh, t);
      SegmentsHeld(c, events, kh, t);
    }
    SumCountsPairs(counts, sets);
  }

  /** Per retained value of a key, the windows holding it. */
  ghost predicate WindowsPerValue(c: Config, events: seq<Event>, kh: u64, values: set<u64>, width: int,
                                  sets: map<u64, set<int>>)
  {
    sets.Keys == values
    && forall t :: t in values ==> AreWindows(sets[t], Times(events), Holding(c, events, kh, t), width)
  }

  lemma {:induction false} ValueWindows(c: Config, events: seq<Event>, kh: u64, t: u64, l: nat)
    requires Begins(events) <= NO_SEG && Nondecreasing(Times(events)) && l < |c.widths|
    requires kh in Replay(c, events).keys.entries && t in Replay(c, events).keys.entries[kh].values.entries
    ensures var v := Replay(c, events).keys.entries[kh].values.entries[t];
      var ws := IdsAmong(Times(events), Holding(c, events, kh, t), c.widths[l]);
      && l < |v.windows| && v.windows[l] == |ws|
      && AreWindows(ws, Times(events), Holding(c, events, kh, t), c.widths[l])
  {
    var times, held := Times(events), Holding(c, events, kh, t);
    LadderIsExact(c, events, kh, t);
    IdsAreWindows(times, held, c.widths[l]);
    var n := Replay(c, events).keys.entries[kh].values.entries[t].windows[l];
    var ws :| AreWindows(ws, times, held, c.widths[l]) && |ws| == n;
    OneWindowSet(ws, IdsAmong(times, held, c.widths[l]), times, held, c.widths[l]);
  }

  ghost function WindowSets(c: Config, events: seq<Event>, kh: u64, values: set<u64>, width: int): map<u64, set<int>> {
    map t | t in values :: IdsAmong(Times(events), Holding(c, events, kh, t), width)
  }

  lemma {:induction false} WindowSetsFit(c: Config, events: seq<Event>, kh: u64, values: set<u64>, width: int)
    ensures WindowsPerValue(c, events, kh, values, width, WindowSets(c, events, kh, values, width))
  {
    forall t | t in values
      ensures AreWindows(WindowSets(c, events, kh, values, width)[t], Times(events), Holding(c, events, kh, t), width)
    {
      IdsAreWindows(Times(events), Holding(c, events, kh, t), width);
    }
  }

  lemma {:induction false} WindowSums(c: Config, events: seq<Event>, kh: u64, l: nat)
    requires Begins(events) <= NO_SEG && Nondecreasing(Times(events)) && l < |c.widths|
    requires kh in Replay(c, events).keys.entries
    ensures var key := Replay(c, events).keys.entries[kh];
      && (forall t :: t in key.values.entries ==> l < |key.values.entries[t].windows|)
      && WindowPostings(key, l) == |PairsOf(WindowSets(c, events, kh, key.values.entries.Keys, c.widths[l]))|
  {
    var values := Replay(c, events).keys.entries[kh].values.entries;
    var sets := WindowSets(c, events, kh, values.Keys, c.widths[l]);
    forall t | t in values
      ensures l < |values[t].windows| && values[t].windows[l] == |sets[t]|
    {
      ValueWindows(c, events, kh, t, l);
    }
    SumCountsPairs(map t | t in values :: values[t].windows[l], sets);
  }

  /** At every level its `window_postings` is the number of distinct pairs of a retained value and a
      window holding it. */
  lemma {:induction false} PostingsCountWindows(c: Config, events: seq<Event>, kh: u64, l: nat)
    returns (sets: map<u64, set<int>>)
    requires Begins(events) <= NO_SEG && Nondecreasing(Times(events)) && l < |c.widths|
    requires kh in Replay(c, events).keys.entries
    ensures var key := Replay(c, events).keys.entries[kh];
      && (forall t :: t in key.values.entries ==> l < |key.values.entries[t].windows|)
      && WindowsPerValue(c, events, kh, key.values.entries.Keys, c.widths[l], sets)
      && WindowPostings(key, l) == |PairsOf(sets)|
  {
    var values := Replay(c, events).keys.entries[kh].values.entries.Keys;
    sets := WindowSets(c, events, kh, values, c.widths[l]);
    WindowSetsFit(c, events, kh, values, c.widths[l]);
    WindowSums(c, events, kh, l);
  }
}
