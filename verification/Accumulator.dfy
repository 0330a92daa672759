/** The attribute-statistics accumulator `Acc` (crates/imbh-attrstats/src/accum.rs).

    Two sketches, one inside the other, count distinct segments and distinct time windows with a
    "last ordinal seen" comparison. The reference, `ExactKey`, counts with plain sums and sets. */
module Accumulator {
  import opened Basics
  import opened Values
  import opened Sketches
  import Utf8

  /** "Not yet seen in any segment". */
  const NO_SEG: nat := U32_MAX

  datatype AttrScope = Attributes | Resource | Scope

  datatype ValueAcc = ValueAcc(segments: nat, lastSeg: nat, windows: seq<nat>, lastWindow: seq<nat>)

  datatype KeyAcc = KeyAcc(
    name: string,
    scope: AttrScope,
    rowsPresent: nat,
    rowsString: nat,
    strLenSum: nat,
    strLenMax: nat,
    segmentsPresent: nat,
    lastSeg: nat,
    runs: nat,
    values: Sketch<ValueAcc>)

  /** Where an observation happens: the open segment and, per level, the open window. */
  datatype Mark = Mark(seg: nat, windows: seq<nat>)

  /** One `observe` call as the sketches see it. `text` is the hash of the value's text;
      `strLen` is present exactly when the value is a string. */
  datatype Sighting = Sighting(
    scope: AttrScope,
    name: string,
    strLen: Option<nat>,
    text: u64,
    count: nat,
    newRun: bool,
    mark: Mark)

  // ----- what one observation does

  function Bump(count: nat, last: nat, open: nat): nat {
    if last != open then count + 1 else count
  }

  function FreshValue(levels: nat): ValueAcc {
    ValueAcc(0, NO_SEG, seq(levels, _ => 0), seq(levels, _ => NO_SEG))
  }

  function ValueStep(v: ValueAcc, m: Mark): ValueAcc {
    ValueAcc(
      Bump(v.segments, v.lastSeg, m.seg),
      m.seg,
      seq(|m.windows|, l requires 0 <= l < |m.windows| =>
        if l < |v.windows| && l < |v.lastWindow| then Bump(v.windows[l], v.lastWindow[l], m.windows[l]) else 0),
      m.windows)
  }

  function ValueRule(): Rule<ValueAcc, Mark> {
    Rule((m: Mark) => FreshValue(|m.windows|), (v: ValueAcc, m: Mark) => ValueStep(v, m))
  }

  function KeyStep(k: KeyAcc, o: Sighting): KeyAcc {
    KeyAcc(
      k.name,
      k.scope,
      k.rowsPresent + o.count,
      k.rowsString + StringRows(o),
      k.strLenSum + StringBytes(o),
      Max(k.strLenMax, StringLength(o)),
      Bump(k.segmentsPresent, k.lastSeg, o.mark.seg),
      o.mark.seg,
      k.runs + NewRuns(o),
      Touch(ValueRule(), k.values, Hit(o.text, o.mark)))
  }

  function StringLength(o: Sighting): nat { if o.strLen.Some? then o.strLen.value else 0 }

  function StringRows(o: Sighting): nat { if o.strLen.Some? then o.count else 0 }

  function StringBytes(o: Sighting): nat { StringLength(o) * o.count }

  function NewRuns(o: Sighting): nat { if o.newRun then 1 else 0 }

  function FreshKey(o: Sighting, valueCap: nat): KeyAcc {
    KeyAcc(o.name, o.scope, 0, 0, 0, 0, 0, NO_SEG, 0, Empty(valueCap))
  }

  function KeyRule(valueCap: nat): Rule<KeyAcc, Sighting> {
    Rule((o: Sighting) => FreshKey(o, valueCap), (k: KeyAcc, o: Sighting) => KeyStep(k, o))
  }

  // ----- the whole accumulator as a state machine

  datatype Config = Config(hash: string -> u64, keyCap: nat, valueCap: nat, widths: seq<int>)

  datatype Event =
    | Begin(minTime: int, maxTime: int)
    | AddRows(n: nat)
    | Observe(scope: AttrScope, name: string, value: AnyValue, text: string, count: nat, newRun: bool)

  /** The part of the state that only `begin_segment` changes. */
  datatype Clock = Clock(segments: nat, curSeg: nat, windows: seq<nat>, curWindowId: seq<int>, curWindow: seq<nat>)

  datatype State = State(clock: Clock, rows: nat, minTime: int, maxTime: int, keys: Sketch<KeyAcc>)

  const I64_MAX: int := 0x7FFF_FFFF_FFFF_FFFF
  const I64_MIN: int := -0x8000_0000_0000_0000

  function FreshClock(levels: nat): Clock {
    Clock(0, NO_SEG, seq(levels, _ => 0), seq(levels, _ => 0), seq(levels, _ => NO_SEG))
  }

  function Fresh(c: Config): State {
    State(FreshClock(|c.widths|), 0, I64_MAX, I64_MIN, Empty(c.keyCap))
  }

  predicate Shaped(k: Clock, widths: seq<int>) {
    |k.windows| == |k.curWindowId| == |k.curWindow| == |widths|
  }

  function WindowId(time: int, width: int): int {
    time / Max(width, 1)
  }

  /** Whether a segment starting at `time` opens a new window at this level. */
  predicate Opens(k: Clock, widths: seq<int>, time: int, l: nat)
    requires Shaped(k, widths) && l < |widths|
  {
    k.curWindow[l] == NO_SEG || WindowId(time, widths[l]) != k.curWindowId[l]
  }

  function Tick(k: Clock, widths: seq<int>, time: int): (k': Clock)
    requires Shaped(k, widths)
    ensures Shaped(k', widths)
  {
    var n := |widths|;
    Clock(
      k.segments + 1,
      k.segments,
      seq(n, l requires 0 <= l < n => if Opens(k, widths, time, l) then k.windows[l] + 1 else k.windows[l]),
      seq(n, l requires 0 <= l < n => WindowId(time, widths[l])),
      seq(n, l requires 0 <= l < n => if Opens(k, widths, time, l) then k.windows[l] else k.curWindow[l]))
  }

  /** The length of a string as `observe` records it: bytes, cut to 32 bits. */
  function RecordedLength(v: AnyValue): Option<nat> {
    match v
    case Str(s) => Some(|Utf8.Encode(s)| % 0x1_0000_0000)
    case _ => None
  }

  /** An `observe` call made at the mark `m`, as the sketches see it. */
  function Seen(c: Config, m: Mark, e: Event): Hit<Sighting>
    requires e.Observe?
  {
    Hit(c.hash(e.name), Sighting(e.scope, e.name, RecordedLength(e.value), c.hash(e.text), e.count, e.newRun, m))
  }

  function Next(c: Config, s: State, e: Event): (s': State)
    requires Shaped(s.clock, c.widths)
    ensures Shaped(s'.clock, c.widths)
  {
    match e
    case Begin(lo, hi) =>
      s.(clock := Tick(s.clock, c.widths, lo), minTime := Min(s.minTime, lo), maxTime := Max(s.maxTime, hi))
    case AddRows(n) => s.(rows := s.rows + n)
    case Observe(_, _, _, _, _, _) =>
      s.(keys := Touch(KeyRule(c.valueCap), s.keys, Seen(c, Mark(s.clock.curSeg, s.clock.curWindow), e)))
  }

  function Replay(c: Config, events: seq<Event>): (s: State)
    ensures Shaped(s.clock, c.widths)
    decreases |events|, 1
  {
    if events == [] then Fresh(c) else LastStep(c, events)
  }

  /** The last event, applied to the state that all the earlier ones left. */
  function LastStep(c: Config, events: seq<Event>): (s: State)
    requires events != []
    ensures Shaped(s.clock, c.widths)
    decreases |events|, 0
  {
    Next(c, Replay(c, events[..|events| - 1]), events[|events| - 1])
  }

  // ----- the mutable accumulator

  class Acc {
    const config: Config
    var segments: nat
    var rows: nat
    var keys: Sketch<KeyAcc>
    var curSeg: nat
    var windows: seq<nat>
    var curWindowId: seq<int>
    var curWindow: seq<nat>
    var minTime: int
    var maxTime: int
    /** Every call made so far. */
    ghost var log: seq<Event>

    ghost function TheState(): State
      reads this
    {
      State(Clock(segments, curSeg, windows, curWindowId, curWindow), rows, minTime, maxTime, keys)
    }

    ghost predicate Valid()
      reads this
    {
      TheState() == Replay(config, log)
    }

    constructor (config: Config)
      ensures Valid() && log == [] && this.config == config
    {
      this.config := config;
      var levels := |config.widths|;
      segments, rows, keys, curSeg := 0, 0, Empty(config.keyCap), NO_SEG;
      windows, curWindowId, curWindow := seq(levels, _ => 0), seq(levels, _ => 0), seq(levels, _ => NO_SEG);
      minTime, maxTime := I64_MAX, I64_MIN;
      log := [];
    }

    /** Start a new segment. `segments` is a `u32`, and the last ordinal is the sentinel. */
    method BeginSegment(lo: int, hi: int)
      requires Valid() && segments < NO_SEG
      modifies this
      ensures Valid() && log == old(log) + [Begin(lo, hi)]
    {
      ghost var k := TheState().clock;
      curSeg := segments;
      segments := segments + 1;
      minTime := Min(minTime, lo);
      maxTime := Max(maxTime, hi);
      windows, curWindowId, curWindow := OpenWindows(lo, k);
      log := log + [Begin(lo, hi)];
      assert log[..|log| - 1] == old(log);
    }

    /** Open, per level, the window containing `time` unless it is open already. */
    method OpenWindows(time: int, ghost k: Clock) returns (counts: seq<nat>, ids: seq<int>, open: seq<nat>)
      requires Shaped(k, config.widths)
      requires windows == k.windows && curWindowId == k.curWindowId && curWindow == k.curWindow
      ensures var k' := Tick(k, config.widths, time);
        counts == k'.windows && ids == k'.curWindowId && open == k'.curWindow
    {
      counts, ids, open := windows, curWindowId, curWindow;
      ghost var k' := Tick(k, config.widths, time);
      for level := 0 to |config.widths|
        invariant |counts| == |ids| == |open| == |config.widths|
        invariant counts[..level] == k'.windows[..level] && counts[level..] == k.windows[level..]
        invariant ids[..level] == k'.curWindowId[..level] && ids[level..] == k.curWindowId[level..]
        invariant open[..level] == k'.curWindow[..level] && open[level..] == k.curWindow[level..]
      {
        var id := time / Max(config.widths[level], 1);
        assert counts[level] == k.windows[level..][0] && ids[level] == k.curWindowId[level..][0]
          && open[level] == k.curWindow[level..][0];
        if open[level] == NO_SEG || id != ids[level] {
          ids := ids[level := id];
          open := open[level := counts[level]];
          counts := counts[level := counts[level] + 1];
        }
      }
    }

    method AddRows(n: nat)
      requires Valid()
      modifies this`rows, this`log
      ensures Valid() && log == old(log) + [Event.AddRows(n)]
    {
      rows := rows + n;
      log := log + [Event.AddRows(n)];
      assert log[..|log| - 1] == old(log);
    }

    method Observe(scope: AttrScope, name: string, value: AnyValue, text: string, count: nat, newRun: bool)
      requires Valid()
      modifies this`keys, this`log
      ensures Valid() && log == old(log) + [Event.Observe(scope, name, value, text, count, newRun)]
    {
      ghost var e := Event.Observe(scope, name, value, text, count, newRun);
      keys := TouchKey(scope, name, value, text, count, newRun);
      log := log + [e];
      assert log[..|log| - 1] == old(log);
    }

    /** Ask for the key's slot and, when the key is tracked, count the observation in it. */
    method TouchKey(scope: AttrScope, name: string, value: AnyValue, text: string, count: nat, newRun: bool)
      returns (sketch: Sketch<KeyAcc>)
      ensures sketch == Touch(KeyRule(config.valueCap), keys,
        Hit(config.hash(name), Sighting(scope, name, RecordedLength(value), config.hash(text), count, newRun,
          Mark(curSeg, curWindow))))
    {
      var h := config.hash(name);
      var made := KeyAcc(name, scope, 0, 0, 0, 0, 0, NO_SEG, 0, Empty(config.valueCap));
      var (keys', present) := Admit(keys, h, made);
      sketch := keys';
      if !present || h !in sketch.entries {
        return;
      }
      var key := ObserveKey(sketch.entries[h], scope, name, value, text, count, newRun);
      sketch := sketch.(entries := sketch.entries[h := key]);
    }

    /** Make a sequence of calls inside the open segment. */
    method MakeCalls(calls: seq<Event>)
      requires Valid() && forall e :: e in calls ==> !e.Begin?
      modifies this`keys, this`rows, this`log
      ensures Valid() && log == old(log) + calls
    {
      for i := 0 to |calls|
        invariant Valid() && log == old(log) + calls[..i]
      {
        assert calls[i] in calls;
        match calls[i]
        case Observe(scope, name, value, text, count, newRun) => Observe(scope, name, value, text, count, newRun);
        case AddRows(n) => AddRows(n);
      }
    }

    /** Count one observation in a tracked key's slot. */
    method ObserveKey(slot: KeyAcc, scope: AttrScope, name: string, value: AnyValue, text: string, count: nat,
        newRun: bool)
      returns (key: KeyAcc)
      ensures key == KeyStep(slot, Sighting(scope, name, RecordedLength(value), config.hash(text), count, newRun,
        Mark(curSeg, curWindow)))
    {
      key := slot.(rowsPresent := slot.rowsPresent + count);
      if newRun {
        key := key.(runs := key.runs + 1);
      }
      if key.lastSeg != curSeg {
        key := key.(lastSeg := curSeg, segmentsPresent := key.segmentsPresent + 1);
      }
      if value.Str? {
        var len := |Utf8.Encode(value.text)| % 0x1_0000_0000;
        key := key.(rowsString := key.rowsString + count,
                    strLenSum := key.strLenSum + len * count,
                    strLenMax := Max(key.strLenMax, len));
      }
      var values := ObserveText(key.values, config.hash(text));
      key := key.(values := values);
    }

    /** Ask the key's sketch for the value and, when it is tracked, count the open segment in it. */
    method ObserveText(sketch: Sketch<ValueAcc>, t: u64) returns (values: Sketch<ValueAcc>)
      ensures values == Touch(ValueRule(), sketch, Hit(t, Mark(curSeg, curWindow)))
    {
      var (kept, tracked) := Admit(sketch, t, FreshValue(|curWindow|));
      values := kept;
      if tracked && t in values.entries {
        var v := ObserveValue(values.entries[t]);
        values := values.(entries := values.entries[t := v]);
      }
    }

    /** Count the open segment and the open window of every level for one tracked value. */
    method ObserveValue(value: ValueAcc) returns (v: ValueAcc)
      ensures v == ValueStep(value, Mark(curSeg, curWindow))
    {
      v := value;
      if v.lastSeg != curSeg {
        v := v.(lastSeg := curSeg, segments := v.segments + 1);
      }
      var counts: seq<nat> := [];
      for level := 0 to |curWindow|
        invariant counts == ValueStep(value, Mark(curSeg, curWindow)).windows[..level]
      {
        var open := curWindow[level];
        var count := if level < |v.windows| && level < |v.lastWindow|
                     then if v.lastWindow[level] != open then v.windows[level] + 1 else v.windows[level]
                     else 0;
        counts := counts + [count];
      }
      v := v.(windows := counts, lastWindow := curWindow);
    }
  }
}
