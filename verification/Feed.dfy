/** Where an observation happens, read off the calls alone: which segment is open, and per level which
    window (crates/imbh-attrstats/src/accum.rs). */
module Feed {
  import opened Accumulator

  /** The start times of the segments, in feeding order. */
  function Times(events: seq<Event>): seq<int> {
    if events == [] then []
    else
      var n := |events| - 1;
      Times(events[..n]) + if events[n].Begin? then [events[n].minTime] else []
  }

  function Ids(times: seq<int>, width: int): seq<int> {
    seq(|times|, i requires 0 <= i < |times| => WindowId(times[i], width))
  }

  /** How many times a window is opened along a sequence of ids. */
  function Opened(ids: seq<int>): nat {
    if ids == [] then 0
    else
      var n := |ids| - 1;
      Opened(ids[..n]) + if n > 0 && ids[n] == ids[n - 1] then 0 else 1
  }

  /** How many segments the calls begin. */
  function Begins(events: seq<Event>): nat { |Times(events)| }

  /** The mark of a call made after segments starting at `times`: the last of them is open, and at each
      level the window opened last. */
  function MarkAfter(widths: seq<int>, times: seq<int>): Mark {
    if times == [] then Mark(NO_SEG, seq(|widths|, _ => NO_SEG))
    else
      Mark(|times| - 1, seq(|widths|, l requires 0 <= l < |widths| => LastOpened(Ids(times, widths[l]))))
  }

  /** The ordinal of the window opened last. */
  function LastOpened(ids: seq<int>): nat
    requires ids != []
  {
    OpenedBounds(ids);
    Opened(ids) - 1
  }

  lemma {:induction false} TimesOfCalls(events: seq<Event>, calls: seq<Event>)
    requires forall e :: e in calls ==> !e.Begin?
    ensures Times(events + calls) == Times(events)
  {
    if calls == [] {
      assert events + calls == events;
    } else {
      var n := |calls| - 1;
      TimesOfCalls(events, calls[..n]);
      assert (events + calls)[..|events + calls| - 1] == events + calls[..n];
      assert calls[n] in calls;
    }
  }

  // ----- the clock against the times

  lemma IdsSnoc(times: seq<int>, time: int, width: int)
    ensures Ids(times + [time], width) == Ids(times, width) + [WindowId(time, width)]
  {
  }

  lemma {:induction false} OpenedSnoc(ids: seq<int>, x: int)
    ensures Opened(ids + [x]) == Opened(ids) + if ids != [] && ids[|ids| - 1] == x then 0 else 1
  {
    assert (ids + [x])[..|ids|] == ids;
  }

  /** What the clock shows at one level after segments starting at `times`. */
  ghost predicate Shows(k: Clock, widths: seq<int>, times: seq<int>, l: nat)
    requires Shaped(k, widths) && l < |widths|
  {
    var ids := Ids(times, widths[l]);
    && k.windows[l] == Opened(ids)
    && (times == [] ==> k.curWindow[l] == NO_SEG)
    && (times != [] ==> k.curWindow[l] == Opened(ids) - 1 && k.curWindowId[l] == ids[|ids| - 1])
  }

  lemma {:induction false} OpenedBounds(ids: seq<int>)
    ensures Opened(ids) <= |ids| && (ids != [] ==> Opened(ids) >= 1)
  {
    if ids != [] {
      OpenedBounds(ids[..|ids| - 1]);
    }
  }

  lemma TickShows(k: Clock, widths: seq<int>, times: seq<int>, time: int, l: nat)
    requires Shaped(k, widths) && l < |widths| && Shows(k, widths, times, l) && |times| < NO_SEG
    ensures Shows(Tick(k, widths, time), widths, times + [time], l)
  {
    var ids := Ids(times, widths[l]);
    IdsSnoc(times, time, widths[l]);
    OpenedSnoc(ids, WindowId(time, widths[l]));
    OpenedBounds(ids);
  }

  lemma {:induction false} ClockShowsTimes(c: Config, events: seq<Event>)
    requires |Times(events)| <= NO_SEG
    ensures var k, times := Replay(c, events).clock, Times(events);
      && k.segments == |times|
      && k.curSeg == (if times == [] then NO_SEG else |times| - 1)
      && forall l :: 0 <= l < |c.widths| ==> Shows(k, c.widths, times, l)
  {
    if events != [] {
      var n := |events| - 1;
      ClockShowsTimes(c, events[..n]);
      if events[n].Begin? {
        forall l | 0 <= l < |c.widths|
          ensures Shows(Replay(c, events).clock, c.widths, Times(events), l)
        {
          TickShows(Replay(c, events[..n]).clock, c.widths, Times(events[..n]), events[n].minTime, l);
        }
      } else {
        assert Times(events) == Times(events[..n]);
      }
    }
  }

  /** The clock of the state machine shows the mark the calls alone give. */
  lemma {:induction false} ClockShowsMark(c: Config, events: seq<Event>)
    requires Begins(events) <= NO_SEG
    ensures var k := Replay(c, events).clock; Mark(k.curSeg, k.curWindow) == MarkAfter(c.widths, Times(events))
  {
    ClockShowsTimes(c, events);
    var k, m := Replay(c, events).clock, MarkAfter(c.widths, Times(events));
    forall l | 0 <= l < |c.widths|
      ensures k.curWindow[l] == m.windows[l]
    {
      assert Shows(k, c.widths, Times(events), l);
    }
  }
}
