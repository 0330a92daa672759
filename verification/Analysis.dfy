/** `analyze` (crates/imbh-attrstats/src/lib.rs): one sort by start time feeds every unit in order. */
module Analysis {
  import opened Basics
  import opened Sorting
  import opened Accumulator
  import opened Feed
  import opened Ladder

  datatype SegmentRef = SegmentRef(path: string, minTime: int, maxTime: int)

  /** A segment to scan and the table whose unit it belongs to. */
  datatype Work = Work(table: nat, seg: SegmentRef)

  /** `Options::selects`: keep segments overlapping the requested range. */
  predicate Selects(range: Option<(int, int)>, seg: SegmentRef) {
    match range
    case None => true
    case Some((start, end)) => seg.maxTime >= start && seg.minTime <= end
  }

  predicate Within(t: int, lo: int, hi: int) { lo <= t <= hi }

  /** A segment is kept exactly when it and the range have an instant in common. */
  lemma SelectsIffOverlap(start: int, end: int, seg: SegmentRef)
    requires start <= end && seg.minTime <= seg.maxTime
    ensures Selects(Some((start, end)), seg) <==>
      exists t :: Within(t, start, end) && Within(t, seg.minTime, seg.maxTime)
  {
    var t := Max(start, seg.minTime);
    assert Selects(Some((start, end)), seg) ==> Within(t, start, end) && Within(t, seg.minTime, seg.maxTime);
  }

  predicate NotLater(a: Work, b: Work) {
    a.seg.minTime < b.seg.minTime || (a.seg.minTime == b.seg.minTime && StrLe(a.seg.path, b.seg.path))
  }

  lemma NotLaterIsOrder()
    ensures TotalPreorder(NotLater)
  {
    forall a, b
      ensures NotLater(a, b) || NotLater(b, a)
    {
      StrLeTotal(a.seg.path, b.seg.path);
    }
    forall a, b, c | NotLater(a, b) && NotLater(b, c)
      ensures NotLater(a, c)
    {
      if a.seg.minTime == b.seg.minTime == c.seg.minTime {
        StrLeTransitive(a.seg.path, b.seg.path, c.seg.path);
      }
    }
  }

  /** The selected segments of every table from `i` on, table by table. */
  function WorkFrom(tables: seq<seq<SegmentRef>>, range: Option<(int, int)>, i: nat): seq<Work>
    requires i <= |tables|
    decreases |tables| - i
  {
    if i == |tables| then []
    else
      var kept := Filter((s: SegmentRef) => Selects(range, s), tables[i]);
      seq(|kept|, j requires 0 <= j < |kept| => Work(i, kept[j])) + WorkFrom(tables, range, i + 1)
  }

  /** What a unit is told about a list of segments: each begins, then its scan follows. */
  function Journal(scan: SegmentRef -> seq<Event>, work: seq<Work>): seq<Event> {
    if work == [] then []
    else
      var n := |work| - 1;
      Journal(scan, work[..n]) + [Begin(work[n].seg.minTime, work[n].seg.maxTime)] + scan(work[n].seg)
  }

  /** A scan makes calls inside one segment; it may stop anywhere, but it begins none. */
  ghost predicate StaysInside(scan: SegmentRef -> seq<Event>) {
    forall s: SegmentRef :: forall e :: e in scan(s) ==> !e.Begin?
  }

  function Of(table: nat): Work -> bool {
    (w: Work) => w.table == table
  }

  lemma {:induction false} TimesOfJournal(scan: SegmentRef -> seq<Event>, work: seq<Work>)
    requires StaysInside(scan)
    ensures |Times(Journal(scan, work))| == |work|
    ensures forall i :: 0 <= i < |work| ==> Times(Journal(scan, work))[i] == work[i].seg.minTime
  {
    if work != [] {
      var n := |work| - 1;
      TimesOfJournal(scan, work[..n]);
      var before, e := Journal(scan, work[..n]), Begin(work[n].seg.minTime, work[n].seg.maxTime);
      assert (before + [e])[..|before|] == before;
      TimesOfCalls(before + [e], scan(work[n].seg));
    }
  }

  lemma {:induction false} JournalSnoc(scan: SegmentRef -> seq<Event>, work: seq<Work>, w: Work)
    ensures Journal(scan, work + [w]) == Journal(scan, work) + ([Begin(w.seg.minTime, w.seg.maxTime)] + scan(w.seg))
  {
    assert (work + [w])[..|work|] == work;
    ConcatAssociates(Journal(scan, work), [Begin(w.seg.minTime, w.seg.maxTime)], scan(w.seg));
  }

  /** Feed one segment to one unit. */
  method Give(unit: Acc, seg: SegmentRef, calls: seq<Event>)
    requires unit.Valid() && |Times(unit.log)| < NO_SEG && forall e :: e in calls ==> !e.Begin?
    modifies unit
    ensures unit.Valid() && unit.log == old(unit.log) + ([Begin(seg.minTime, seg.maxTime)] + calls)
  {
    ClockShowsTimes(unit.config, unit.log);
    assert unit.segments == Replay(unit.config, unit.log).clock.segments;
    unit.BeginSegment(seg.minTime, seg.maxTime);
    unit.MakeCalls(calls);
  }

  /** The order `analyze` feeds the segments in. */
  function Order(tables: seq<seq<SegmentRef>>, range: Option<(int, int)>): seq<Work> {
    Sort(NotLater, WorkFrom(tables, range, 0))
  }

  lemma {:induction false} WorkTables(tables: seq<seq<SegmentRef>>, range: Option<(int, int)>, i: nat)
    requires i <= |tables|
    ensures forall w :: w in WorkFrom(tables, range, i) ==> w.table < |tables|
    decreases |tables| - i
  {
    if i < |tables| {
      WorkTables(tables, range, i + 1);
    }
  }

  lemma OrderTables(tables: seq<seq<SegmentRef>>, range: Option<(int, int)>)
    ensures |Order(tables, range)| == |WorkFrom(tables, range, 0)|
    ensures forall i :: 0 <= i < |Order(tables, range)| ==> Order(tables, range)[i].table < |tables|
  {
    var all := WorkFrom(tables, range, 0);
    SortKeepsElements(NotLater, all);
    WorkTables(tables, range, 0);
    forall i | 0 <= i < |Order(tables, range)|
      ensures Order(tables, range)[i].table < |tables|
    {
      assert Order(tables, range)[i] in multiset(all);
    }
  }

  lemma {:induction false} FilterShorter(t: nat, work: seq<Work>)
    ensures |Filter(Of(t), work)| <= |work|
  {
    if work != [] {
      FilterShorter(t, work[1..]);
    }
  }

  lemma {:induction false} FilterSnoc(t: nat, work: seq<Work>, w: Work)
    ensures Filter(Of(t), work + [w]) == Filter(Of(t), work) + if w.table == t then [w] else []
  {
    FilterOfConcat(Of(t), work, [w]);
    assert Filter(Of(t), [w]) == if w.table == t then [w] else [];
  }

  /** A unit that has been told about exactly these segments. */
  ghost predicate Told(unit: Acc, config: Config, scan: SegmentRef -> seq<Event>, work: seq<Work>)
    reads unit
  {
    unit.Valid() && unit.config == config && unit.log == Journal(scan, work)
  }

  /** Feed one segment to a unit that has been told about earlier ones. */
  method Tell(unit: Acc, ghost config: Config, scan: SegmentRef -> seq<Event>, ghost work: seq<Work>, w: Work)
    requires StaysInside(scan) && Told(unit, config, scan, work) && |work| < NO_SEG
    modifies unit
    ensures Told(unit, config, scan, work + [w])
  {
    TimesOfJournal(scan, work);
    JournalSnoc(scan, work, w);
    Give(unit, w.seg, scan(w.seg));
  }

  method FreshUnits(n: nat, config: Config, scan: SegmentRef -> seq<Event>) returns (units: seq<Acc>)
    ensures |units| == n
    ensures forall t :: 0 <= t < n ==> fresh(units[t]) && Told(units[t], config, scan, [])
    ensures forall t, u :: 0 <= t < u < n ==> units[t] != units[u]
  {
    units := [];
    while |units| < n
      invariant |units| <= n
      invariant forall t :: 0 <= t < |units| ==> fresh(units[t]) && Told(units[t], config, scan, [])
      invariant forall t, u :: 0 <= t < u < |units| ==> units[t] != units[u]
    {
      var unit := new Acc(config);
      units := units + [unit];
    }
  }

  /** Feed one segment to its table's unit and to the global one. */
  method Share(units: seq<Acc>, global: Acc, ghost config: Config, scan: SegmentRef -> seq<Event>,
      ghost done: seq<Work>, w: Work)
    requires StaysInside(scan) && |done| < NO_SEG && w.table < |units|
    requires Told(global, config, scan, done) && global !in units
    requires forall t :: 0 <= t < |units| ==> Told(units[t], config, scan, Filter(Of(t), done))
    requires forall t, u :: 0 <= t < u < |units| ==> units[t] != units[u]
    modifies units[w.table], global
    ensures Told(global, config, scan, done + [w])
    ensures forall t :: 0 <= t < |units| ==> Told(units[t], config, scan, Filter(Of(t), done + [w]))
  {
    FilterShorter(w.table, done);
    Tell(units[w.table], config, scan, Filter(Of(w.table), done), w);
    Tell(global, config, scan, done, w);
    forall t | 0 <= t < |units|
      ensures Filter(Of(t), done + [w]) == if t == w.table then Filter(Of(t), done) + [w] else Filter(Of(t), done)
    {
      FilterSnoc(t, done, w);
    }
  }

  /** Every unit gets its own table's segments and the global unit gets them all, in time order. */
  method Analyze(tables: seq<seq<SegmentRef>>, range: Option<(int, int)>, config: Config,
      scan: SegmentRef -> seq<Event>)
    returns (units: seq<Acc>, global: Acc)
    requires StaysInside(scan) && |WorkFrom(tables, range, 0)| <= NO_SEG
    ensures |units| == |tables| && Told(global, config, scan, Order(tables, range))
    ensures forall t :: 0 <= t < |units| ==> Told(units[t], config, scan, Filter(Of(t), Order(tables, range)))
  {
    units := FreshUnits(|tables|, config, scan);
    global := new Acc(config);
    var work := Order(tables, range);
    OrderTables(tables, range);
    for i := 0 to |work|
      invariant fresh(global) && Told(global, config, scan, work[..i])
      invariant forall t :: 0 <= t < |units| ==> fresh(units[t]) && units[t] != global
      invariant forall t :: 0 <= t < |units| ==> Told(units[t], config, scan, Filter(Of(t), work[..i]))
    {
      assert work[..i + 1] == work[..i] + [work[i]];
      Share(units, global, config, scan, work[..i], work[i]);
    }
    assert work[..|work|] == work;
  }

  lemma {:induction false} OrderedJournal(scan: SegmentRef -> seq<Event>, work: seq<Work>)
    requires StaysInside(scan) && Sorted(NotLater, work)
    ensures Nondecreasing(Times(Journal(scan, work)))
  {
    TimesOfJournal(scan, work);
    assert forall i, j :: 0 <= i < j < |work| ==> NotLater(work[i], work[j]);
  }

  /** The one sort serves everybody: the global unit and every per-table unit see their segments in
      nondecreasing time order. */
  lemma EveryUnitIsOrdered(tables: seq<seq<SegmentRef>>, range: Option<(int, int)>, scan: SegmentRef -> seq<Event>,
      t: nat)
    requires StaysInside(scan)
    ensures Nondecreasing(Times(Journal(scan, Order(tables, range))))
    ensures Nondecreasing(Times(Journal(scan, Filter(Of(t), Order(tables, range)))))
    ensures multiset(Order(tables, range)) == multiset(WorkFrom(tables, range, 0))
  {
    var work := Order(tables, range);
    NotLaterIsOrder();
    SortSorted(NotLater, WorkFrom(tables, range, 0));
    SortKeepsElements(NotLater, WorkFrom(tables, range, 0));
    FilterKeepsOrder(Of(t), NotLater, work);
    OrderedJournal(scan, work);
    OrderedJournal(scan, Filter(Of(t), work));
  }

  /** By start time, and for equal times by the code points of the paths. */
  ghost predicate FedBefore(a: SegmentRef, b: SegmentRef) {
    a.minTime < b.minTime || (a.minTime == b.minTime && (a.path == b.path || CodePointLt(a.path, b.path)))
  }

  /** The feeding order is by start time and then by path. */
  lemma {:induction false} OrderIsByTimeThenPath(tables: seq<seq<SegmentRef>>, range: Option<(int, int)>, i: nat,
      j: nat)
    requires i < j < |Order(tables, range)|
    ensures FedBefore(Order(tables, range)[i].seg, Order(tables, range)[j].seg)
  {
    var work := Order(tables, range);
    NotLaterIsOrder();
    SortSorted(NotLater, WorkFrom(tables, range, 0));
    assert NotLater(work[i], work[j]);
    StrLeIff(work[i].seg.path, work[j].seg.path);
  }

  lemma {:induction false} WorkMembers(tables: seq<seq<SegmentRef>>, range: Option<(int, int)>, i: nat, w: Work)
    requires i <= |tables|
    ensures w in WorkFrom(tables, range, i) <==>
      i <= w.table < |tables| && w.seg in tables[w.table] && Selects(range, w.seg)
    decreases |tables| - i
  {
    if i < |tables| {
      var p := (s: SegmentRef) => Selects(range, s);
      var kept := Filter(p, tables[i]);
      var here := seq(|kept|, j requires 0 <= j < |kept| => Work(i, kept[j]));
      WorkMembers(tables, range, i + 1, w);
      FilterMembers(p, tables[i], w.seg);
      assert w in here <==> w.table == i && w.seg in kept by {
        if w.table == i && w.seg in kept {
          var j :| 0 <= j < |kept| && kept[j] == w.seg;
          assert here[j] == w;
        }
      }
    }
  }

  /** What is fed: exactly the selected segments, each to the unit of its own table. */
  lemma {:induction false} OrderHolds(tables: seq<seq<SegmentRef>>, range: Option<(int, int)>, w: Work)
    ensures w in Order(tables, range) <==>
      w.table < |tables| && w.seg in tables[w.table] && Selects(range, w.seg)
  {
    WorkMembers(tables, range, 0, w);
    SortKeepsElements(NotLater, WorkFrom(tables, range, 0));
    SameMembers(Order(tables, range), WorkFrom(tables, range, 0));
  }

  // ----- end to end

  /** The scan of a segment finds the value `vh` under the key `kh`. */
  ghost predicate ScanHolds(c: Config, calls: seq<Event>, kh: u64, vh: u64) {
    exists e :: e in calls && Carries(c, e, kh, vh)
  }

  /** The segments of a work list, by position, whose scan finds the value. */
  ghost function HeldBy(c: Config, scan: SegmentRef -> seq<Event>, work: seq<Work>, kh: u64, vh: u64): set<nat> {
    set s | 0 <= s < |work| && ScanHolds(c, scan(work[s].seg), kh, vh)
  }

  lemma {:induction false} ScanHoldsSnoc(c: Config, calls: seq<Event>, e: Event, kh: u64, vh: u64)
    ensures ScanHolds(c, calls + [e], kh, vh) <==> ScanHolds(c, calls, kh, vh) || Carries(c, e, kh, vh)
  {
    if x :| x in calls && Carries(c, x, kh, vh) {
      assert x in calls + [e];
    }
    assert e in calls + [e];
  }

  lemma {:induction false} HoldingOfOneMore(c: Config, events: seq<Event>, calls: seq<Event>, e: Event, kh: u64,
      vh: u64)
    requires Times(events) != [] && forall x :: x in calls ==> !x.Begin?
    requires Holding(c, events + calls, kh, vh) ==
      if ScanHolds(c, calls, kh, vh) then Holding(c, events, kh, vh) + {|Times(events)| - 1}
      else Holding(c, events, kh, vh)
    ensures Holding(c, events + calls + [e], kh, vh) ==
      if ScanHolds(c, calls + [e], kh, vh) then Holding(c, events, kh, vh) + {|Times(events)| - 1}
      else Holding(c, events, kh, vh)
  {
    HoldingSnoc(c, events + calls, e, kh, vh);
    TimesOfCalls(events, calls);
    ScanHoldsSnoc(c, calls, e, kh, vh);
  }

  /** Calls made inside the open segment can only add that segment. */
  lemma {:induction false} HoldingOfCalls(c: Config, events: seq<Event>, calls: seq<Event>, kh: u64, vh: u64)
    requires Times(events) != [] && forall e :: e in calls ==> !e.Begin?
    ensures Holding(c, events + calls, kh, vh) ==
      if ScanHolds(c, calls, kh, vh) then Holding(c, events, kh, vh) + {|Times(events)| - 1}
      else Holding(c, events, kh, vh)
    decreases |calls|
  {
    if calls == [] {
      assert events + calls == events;
    } else {
      var rest, e := calls[..|calls| - 1], calls[|calls| - 1];
      assert calls == rest + [e];
      HoldingOfCalls(c, events, rest, kh, vh);
      ConcatAssociates(events, rest, [e]);
      HoldingOfOneMore(c, events, rest, e, kh, vh);
    }
  }

  /** What a journal holds is what the scans of its segments find. */
  lemma {:induction false} HoldingOfJournal(c: Config, scan: SegmentRef -> seq<Event>, work: seq<Work>, kh: u64,
      vh: u64)
    requires StaysInside(scan)
    ensures Holding(c, Journal(scan, work), kh, vh) == HeldBy(c, scan, work, kh, vh)
    decreases |work|
  {
    if work != [] {
      var n := |work| - 1;
      var before, w := work[..n], work[n];
      var events, e := Journal(scan, before), Begin(w.seg.minTime, w.seg.maxTime);
      HoldingOfJournal(c, scan, before, kh, vh);
      TimesOfJournal(scan, before);
      HoldingSnoc(c, events, e, kh, vh);
      assert (events + [e])[..|events|] == events;
      assert Times(events + [e]) == Times(events) + [w.seg.minTime];
      HoldingOfCalls(c, events + [e], scan(w.seg), kh, vh);
      HeldByStep(c, scan, before, w, kh, vh);
      assert work == before + [w];
    }
  }

  lemma {:induction false} HeldByStep(c: Config, scan: SegmentRef -> seq<Event>, before: seq<Work>, w: Work, kh: u64,
      vh: u64)
    ensures HeldBy(c, scan, before + [w], kh, vh) ==
      if ScanHolds(c, scan(w.seg), kh, vh) then HeldBy(c, scan, before, kh, vh) + {|before|}
      else HeldBy(c, scan, before, kh, vh)
  {
    var work := before + [w];
    assert work[|before|] == w;
    assert forall s :: 0 <= s < |before| ==> work[s] == before[s];
  }

  /** When the segments of a work list start. */
  function Starts(work: seq<Work>): seq<int> {
    seq(|work|, i requires 0 <= i < |work| => work[i].seg.minTime)
  }

  /** What a unit fed a time-ordered list of segments ends with: per level the number of different windows
      the segments start in, and for every retained value the number of segments whose scan finds it and,
      per level, the number of different windows those start in. */
  ghost predicate LadderExact(c: Config, scan: SegmentRef -> seq<Event>, work: seq<Work>, s: State) {
    && |s.clock.windows| == |c.widths|
    && (forall l :: 0 <= l < |c.widths| ==>
          InWindows(s.clock.windows[l], Starts(work), Upto(|work|), c.widths[l]))
    && (forall kh, vh :: kh in s.keys.entries && vh in s.keys.entries[kh].values.entries ==>
          ValueExact(c, work, HeldBy(c, scan, work, kh, vh), s.keys.entries[kh].values.entries[vh]))
  }

  ghost predicate ValueExact(c: Config, work: seq<Work>, held: set<nat>, v: ValueAcc) {
    && v.segments == |held| && |v.windows| == |c.widths|
    && forall l :: 0 <= l < |c.widths| ==> InWindows(v.windows[l], Starts(work), held, c.widths[l])
  }

  lemma {:induction false} TimesAreStarts(scan: SegmentRef -> seq<Event>, work: seq<Work>)
    requires StaysInside(scan)
    ensures Times(Journal(scan, work)) == Starts(work)
  {
    TimesOfJournal(scan, work);
  }

  lemma {:induction false} ValueIsExact(c: Config, scan: SegmentRef -> seq<Event>, work: seq<Work>, kh: u64, vh: u64)
    requires StaysInside(scan) && Sorted(NotLater, work) && |work| <= NO_SEG
    requires var keys := Replay(c, Journal(scan, work)).keys;
      kh in keys.entries && vh in keys.entries[kh].values.entries
    ensures var keys := Replay(c, Journal(scan, work)).keys;
      ValueExact(c, work, HeldBy(c, scan, work, kh, vh), keys.entries[kh].values.entries[vh])
  {
    TimesAreStarts(scan, work);
    OrderedJournal(scan, work);
    LadderIsExact(c, Journal(scan, work), kh, vh);
    HoldingOfJournal(c, scan, work, kh, vh);
  }

  lemma {:induction false} WindowsAreExact(c: Config, scan: SegmentRef -> seq<Event>, work: seq<Work>, l: nat)
    requires StaysInside(scan) && Sorted(NotLater, work) && |work| <= NO_SEG && l < |c.widths|
    ensures InWindows(Replay(c, Journal(scan, work)).clock.windows[l], Starts(work), Upto(|work|), c.widths[l])
  {
    TimesAreStarts(scan, work);
    OrderedJournal(scan, work);
    WindowsOpenedIff(c, Journal(scan, work), l);
  }

  lemma {:induction false} SortedWorkIsExact(c: Config, scan: SegmentRef -> seq<Event>, work: seq<Work>)
    requires StaysInside(scan) && Sorted(NotLater, work) && |work| <= NO_SEG
    ensures LadderExact(c, scan, work, Replay(c, Journal(scan, work)))
  {
    var s := Replay(c, Journal(scan, work));
    forall l | 0 <= l < |c.widths|
      ensures InWindows(s.clock.windows[l], Starts(work), Upto(|work|), c.widths[l])
    {
      WindowsAreExact(c, scan, work, l);
    }
    forall kh, vh | kh in s.keys.entries && vh in s.keys.entries[kh].values.entries
      ensures ValueExact(c, work, HeldBy(c, scan, work, kh, vh), s.keys.entries[kh].values.entries[vh])
    {
      ValueIsExact(c, scan, work, kh, vh);
    }
  }

  /** End to end: the state `analyze` leaves in the global unit, and in the unit of every table, counts
      exactly the segments and windows in which the scans find each retained value. */
  lemma {:induction false} EveryLadderIsExact(tables: seq<seq<SegmentRef>>, range: Option<(int, int)>, c: Config,
                                              scan: SegmentRef -> seq<Event>, t: nat)
    requires StaysInside(scan) && |WorkFrom(tables, range, 0)| <= NO_SEG
    ensures var all := Order(tables, range); LadderExact(c, scan, all, Replay(c, Journal(scan, all)))
    ensures var own := Filter(Of(t), Order(tables, range)); LadderExact(c, scan, own, Replay(c, Journal(scan, own)))
  {
    var work := Order(tables, range);
    NotLaterIsOrder();
    SortSorted(NotLater, WorkFrom(tables, range, 0));
    FilterKeepsOrder(Of(t), NotLater, work);
    OrderTables(tables, range);
    FilterShorter(t, work);
    SortedWorkIsExact(c, scan, work);
    SortedWorkIsExact(c, scan, Filter(Of(t), work));
  }
}
