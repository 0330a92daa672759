/** What a scan leaves in a key's counters, said of the rows of the column
    (crates/imbh-attrstats/src/scan.rs, accum.rs). */
module KeyCounts {
  import opened Basics
  import opened Values
  import Utf8
  import opened Sketches
  import opened Accumulator
  import opened Feed
  import opened Exactness
  import opened Ladder
  import opened Scans
  import opened Coalescing

  // ----- cells of a column

  /** A pair `e` under a row `p` that already holds the same key with the same value. */
  ghost predicate Continued(p: Option<seq<Entry>>, e: Entry) {
    p.Some? && exists f :: f in p.value && f.key == e.key && SameValue(f.value, e.value)
  }

  datatype What = AllPairs | RunStarts | Strings

  /** Whether the pair `e`, under the row `p`, is one to count. */
  ghost predicate Counted(w: What, p: Option<seq<Entry>>, e: Entry) {
    match w
    case AllPairs => true
    case RunStarts => !Continued(p, e)
    case Strings => e.value.Str?
  }

  /** The column and the key whose hash is asked for. */
  datatype Query = Query(c: Config, r: Reader, scope: AttrScope, h: u64)

  /** The name a key is reported under: bare for record attributes. */
  function FullName(scope: AttrScope, key: string): string {
    match scope
    case Attributes => key
    case Resource => "resource:" + key
    case Scope => "scope:" + key
  }

  predicate Named(q: Query, e: Entry) { q.c.hash(FullName(q.scope, e.key)) == q.h }

  /** The row above row `i`; above the first one is what the scan carried in. */
  function Above(q: Query, rows: seq<string>, prev: Option<seq<Entry>>, i: nat): Option<seq<Entry>>
    requires i <= |rows|
  {
    if i == 0 then prev else Some(q.r.parse(rows[i - 1]))
  }

  /** Which pairs of one row count, by position. */
  ghost function InRow(q: Query, p: Option<seq<Entry>>, attrs: seq<Entry>, w: What): set<nat> {
    set j | 0 <= j < |attrs| && Named(q, attrs[j]) && Counted(w, p, attrs[j])
  }

  ghost predicate IsCell(q: Query, rows: seq<string>, prev: Option<seq<Entry>>, w: What, i: nat, j: nat) {
    i < |rows| && j in InRow(q, Above(q, rows, prev, i), q.r.parse(rows[i]), w)
  }

  /** Which pairs of a column count: by row, and by position in the row. */
  ghost function Cells(q: Query, rows: seq<string>, prev: Option<seq<Entry>>, w: What): set<(nat, nat)> {
    set i, j | 0 <= i < |rows| && j in InRow(q, Above(q, rows, prev, i), q.r.parse(rows[i]), w) :: (i, j)
  }

  // ----- counting cells row by row

  ghost function Tagged(n: nat, js: set<nat>): set<(nat, nat)> { set j | j in js :: (n, j) }

  lemma {:induction false} TaggedSize(n: nat, js: set<nat>)
    ensures |Tagged(n, js)| == |js|
    decreases |js|
  {
    if js == {} {
      assert Tagged(n, js) == {};
    } else {
      var j :| j in js;
      TaggedSize(n, js - {j});
      assert Tagged(n, js) == Tagged(n, js - {j}) + {(n, j)};
    }
  }

  lemma {:induction false} CellInSnoc(q: Query, rows: seq<string>, row: string, prev: Option<seq<Entry>>, w: What,
      i: nat, j: nat)
    ensures IsCell(q, rows + [row], prev, w, i, j) <==>
      || IsCell(q, rows, prev, w, i, j)
      || (i == |rows| && j in InRow(q, Above(q, rows, prev, |rows|), q.r.parse(row), w))
  {
    var all := rows + [row];
    if i < |rows| {
      assert all[i] == rows[i] && Above(q, all, prev, i) == Above(q, rows, prev, i);
    } else if i == |rows| {
      assert all[i] == row && Above(q, all, prev, i) == Above(q, rows, prev, i);
    }
  }

  lemma {:induction false} CellsSnoc(q: Query, rows: seq<string>, row: string, prev: Option<seq<Entry>>, w: What)
    ensures |Cells(q, rows + [row], prev, w)|
      == |Cells(q, rows, prev, w)| + |InRow(q, Above(q, rows, prev, |rows|), q.r.parse(row), w)|
  {
    var n, js := |rows|, InRow(q, Above(q, rows, prev, |rows|), q.r.parse(row), w);
    var all, before, last := Cells(q, rows + [row], prev, w), Cells(q, rows, prev, w), Tagged(n, js);
    forall x: (nat, nat)
      ensures x in all <==> x in before || x in last
    {
      assert x in all <==> IsCell(q, rows + [row], prev, w, x.0, x.1);
      assert x in before <==> IsCell(q, rows, prev, w, x.0, x.1);
      CellInSnoc(q, rows, row, prev, w, x.0, x.1);
    }
    assert all == before + last && before !! last;
    TaggedSize(n, js);
  }

  lemma {:induction false} InRowSnoc(q: Query, p: Option<seq<Entry>>, attrs: seq<Entry>, e: Entry, w: What)
    ensures |InRow(q, p, attrs + [e], w)|
      == |InRow(q, p, attrs, w)| + if Named(q, e) && Counted(w, p, e) then 1 else 0
  {
    var n, all := |attrs|, attrs + [e];
    var before, after := InRow(q, p, attrs, w), InRow(q, p, all, w);
    forall j: nat
      ensures j in after <==> j in before || (j == n && Named(q, e) && Counted(w, p, e))
    {
      if j < n {
        assert all[j] == attrs[j];
      } else if j == n {
        assert all[j] == e;
      }
    }
    if Named(q, e) && Counted(w, p, e) {
      assert after == before + {n};
    } else {
      assert after == before;
    }
  }

  // ----- the run flag

  /** The flag a scan reports, against the row above: any first pair, for a row that repeats no key. */
  lemma {:induction false} StartsRunIff(p: Option<seq<Entry>>, e: Entry)
    requires p.Some? ==> DistinctNoNaN(p.value)
    ensures StartsRun(p, e) <==> !Continued(p, e)
  {
    if p.Some? {
      if exists f :: f in p.value && f.key == e.key {
        var f :| f in p.value && f.key == e.key;
        var i :| 0 <= i < |p.value| && p.value[i] == f;
        FindFirst(p.value, i);
        forall g | g in p.value && g.key == e.key
          ensures g == f
        {
          var k :| 0 <= k < |p.value| && p.value[k] == g;
          assert k == i;
        }
      } else {
        FindAbsent(p.value, e.key);
      }
    }
  }

  lemma {:induction false} FindAbsent(pairs: seq<Entry>, key: string)
    requires forall f :: f in pairs ==> f.key != key
    ensures Find(pairs, key) == None
    decreases |pairs|
  {
    if pairs != [] {
      assert pairs[0] in pairs;
      FindAbsent(pairs[1..], key);
    }
  }

  // ----- the calls of one row

  /** What a sighting adds to the counter in question. */
  function Adds(w: What): Sighting -> nat {
    match w
    case AllPairs => Rows
    case RunStarts => NewRuns
    case Strings => StringRows
  }

  lemma {:induction false} SumSnoc(f: Sighting -> nat, os: seq<Sighting>, o: Sighting)
    ensures Sum(f, os + [o]) == Sum(f, os) + f(o) && Largest(f, os + [o]) == Max(Largest(f, os), f(o))
  {
    assert (os + [o])[..|os|] == os;
  }

  lemma {:induction false} CallsObserve(r: Reader, scope: AttrScope, attrs: seq<Entry>, count: nat,
      prev: Option<seq<Entry>>)
    ensures Observes(Calls(r, scope, attrs, count, prev))
  {
    CallAt(r, scope, attrs, count, prev);
  }

  /** The sightings of the key that one row makes. */
  function RowHits(q: Query, m: Mark, p: Option<seq<Entry>>, attrs: seq<Entry>): seq<Sighting> {
    CallsObserve(q.r, q.scope, attrs, 1, p);
    Only(q.h, SeenAll(q.c, m, Calls(q.r, q.scope, attrs, 1, p)))
  }

  function Hit1(q: Query, m: Mark, p: Option<seq<Entry>>, e: Entry): Sighting {
    Seen(q.c, m, CallFor(q.r, q.scope, e, 1, StartsRun(p, e))).obs
  }

  lemma {:induction false} RowHitsSnoc(q: Query, m: Mark, p: Option<seq<Entry>>, attrs: seq<Entry>, e: Entry)
    ensures RowHits(q, m, p, attrs + [e]) ==
      if Named(q, e) then RowHits(q, m, p, attrs) + [Hit1(q, m, p, e)] else RowHits(q, m, p, attrs)
  {
    var calls, call := Calls(q.r, q.scope, attrs, 1, p), CallFor(q.r, q.scope, e, 1, StartsRun(p, e));
    assert (attrs + [e])[..|attrs|] == attrs;
    assert Calls(q.r, q.scope, attrs + [e], 1, p) == calls + [call];
    CallsObserve(q.r, q.scope, attrs, 1, p);
    CallsObserve(q.r, q.scope, attrs + [e], 1, p);
    assert Prefix(q.scope) + e.key == FullName(q.scope, e.key);
    PickSnoc(q.c, m, q.h, calls, call);
  }

  lemma {:induction false} HitAdds(q: Query, m: Mark, p: Option<seq<Entry>>, e: Entry, w: What)
    requires p.Some? ==> DistinctNoNaN(p.value)
    ensures Adds(w)(Hit1(q, m, p, e)) == if Counted(w, p, e) then 1 else 0
  {
    StartsRunIff(p, e);
  }

  lemma {:induction false} RowAdds(q: Query, m: Mark, p: Option<seq<Entry>>, attrs: seq<Entry>, w: What)
    requires p.Some? ==> DistinctNoNaN(p.value)
    ensures Sum(Adds(w), RowHits(q, m, p, attrs)) == |InRow(q, p, attrs, w)|
    decreases |attrs|
  {
    if attrs == [] {
      assert InRow(q, p, attrs, w) == {};
    } else {
      var before, e := attrs[..|attrs| - 1], attrs[|attrs| - 1];
      assert attrs == before + [e];
      RowAdds(q, m, p, before, w);
      RowHitsSnoc(q, m, p, before, e);
      SumSnoc(Adds(w), RowHits(q, m, p, before), Hit1(q, m, p, e));
      HitAdds(q, m, p, e, w);
      InRowSnoc(q, p, before, e, w);
    }
  }

  // ----- the calls of a column

  /** The sightings of the key that a row-at-a-time walk makes. */
  function ColumnHits(q: Query, m: Mark, rows: seq<string>, prev: Option<seq<Entry>>): seq<Sighting> {
    CallsAreObserves(q.r, q.scope, RowByRow(rows), prev);
    Only(q.h, SeenAll(q.c, m, Walk(q.r, q.scope, RowByRow(rows), prev)))
  }

  lemma {:induction false} ColumnHitsSnoc(q: Query, m: Mark, rows: seq<string>, row: string, prev: Option<seq<Entry>>)
    ensures ColumnHits(q, m, rows + [row], prev)
      == ColumnHits(q, m, rows, prev) + RowHits(q, m, Above(q, rows, prev, |rows|), q.r.parse(row))
  {
    var above := Above(q, rows, prev, |rows|);
    var walk, calls := Walk(q.r, q.scope, RowByRow(rows), prev), Calls(q.r, q.scope, q.r.parse(row), 1, above);
    assert RowByRow(rows + [row]) == RowByRow(rows) + [Run(row, 1)];
    assert PrevAfter(q.r, RowByRow(rows), prev) == above;
    WalkSnoc(q.r, q.scope, RowByRow(rows), Run(row, 1), prev);
    CallsAreObserves(q.r, q.scope, RowByRow(rows), prev);
    CallsAreObserves(q.r, q.scope, RowByRow(rows + [row]), prev);
    CallsObserve(q.r, q.scope, q.r.parse(row), 1, above);
    PickOfTwo(q.c, m, walk, calls, q.h);
  }

  ghost predicate Tidy(q: Query, rows: seq<string>, prev: Option<seq<Entry>>) {
    && (prev.Some? ==> DistinctNoNaN(prev.value))
    && forall i :: 0 <= i < |rows| ==> DistinctNoNaN(q.r.parse(rows[i]))
  }

  lemma {:induction false} ColumnAdds(q: Query, m: Mark, rows: seq<string>, prev: Option<seq<Entry>>, w: What)
    requires Tidy(q, rows, prev)
    ensures Sum(Adds(w), ColumnHits(q, m, rows, prev)) == |Cells(q, rows, prev, w)|
    decreases |rows|
  {
    if rows == [] {
      assert Cells(q, rows, prev, w) == {};
    } else {
      var n := |rows| - 1;
      var before, row := rows[..n], rows[n];
      assert rows == before + [row];
      var above := Above(q, before, prev, n);
      ColumnAdds(q, m, before, prev, w);
      ColumnHitsSnoc(q, m, before, row, prev);
      SumOfConcat(Adds(w), ColumnHits(q, m, before, prev), RowHits(q, m, above, q.r.parse(row)));
      RowAdds(q, m, above, q.r.parse(row), w);
      CellsSnoc(q, before, row, prev, w);
    }
  }

  // ----- string lengths

  /** The bytes of a string in UTF-8, as a `u32` keeps them. */
  function ByteLength(v: AnyValue): nat {
    if v.Str? then |Utf8.Encode(v.text)| % 0x1_0000_0000 else 0
  }

  function RowBytes(q: Query, attrs: seq<Entry>): nat {
    if attrs == [] then 0
    else
      var n := |attrs| - 1;
      RowBytes(q, attrs[..n]) + if Named(q, attrs[n]) then ByteLength(attrs[n].value) else 0
  }

  /** The bytes of all the string values under the key. */
  function Bytes(q: Query, rows: seq<string>): nat {
    if rows == [] then 0 else Bytes(q, rows[..|rows| - 1]) + RowBytes(q, q.r.parse(rows[|rows| - 1]))
  }

  ghost predicate InRowLength(q: Query, attrs: seq<Entry>, n: nat) {
    exists e :: e in attrs && Named(q, e) && e.value.Str? && ByteLength(e.value) == n
  }

  /** Some string under the key is `n` bytes long. */
  ghost predicate HasLength(q: Query, rows: seq<string>, n: nat) {
    exists i :: 0 <= i < |rows| && InRowLength(q, q.r.parse(rows[i]), n)
  }

  /** `n` is the length of the longest string under the key, and 0 if there is none. */
  ghost predicate IsLongest(q: Query, rows: seq<string>, n: nat) {
    && (n > 0 ==> HasLength(q, rows, n))
    && forall k: nat :: HasLength(q, rows, k) ==> k <= n
  }

  lemma {:induction false} HitLength(q: Query, m: Mark, p: Option<seq<Entry>>, e: Entry)
    ensures StringLength(Hit1(q, m, p, e)) == ByteLength(e.value) == StringBytes(Hit1(q, m, p, e))
  {
  }

  lemma {:induction false} RowBytesAdd(q: Query, m: Mark, p: Option<seq<Entry>>, attrs: seq<Entry>)
    ensures Sum(StringBytes, RowHits(q, m, p, attrs)) == RowBytes(q, attrs)
    decreases |attrs|
  {
    if attrs != [] {
      var before, e := attrs[..|attrs| - 1], attrs[|attrs| - 1];
      assert attrs == before + [e];
      RowBytesAdd(q, m, p, before);
      RowHitsSnoc(q, m, p, before, e);
      SumSnoc(StringBytes, RowHits(q, m, p, before), Hit1(q, m, p, e));
      HitLength(q, m, p, e);
    }
  }

  lemma {:induction false} ColumnBytes(q: Query, m: Mark, rows: seq<string>, prev: Option<seq<Entry>>)
    ensures Sum(StringBytes, ColumnHits(q, m, rows, prev)) == Bytes(q, rows)
    decreases |rows|
  {
    if rows != [] {
      var n := |rows| - 1;
      var before, row := rows[..n], rows[n];
      assert rows == before + [row];
      var above := Above(q, before, prev, n);
      ColumnBytes(q, m, before, prev);
      ColumnHitsSnoc(q, m, before, row, prev);
      SumOfConcat(StringBytes, ColumnHits(q, m, before, prev), RowHits(q, m, above, q.r.parse(row)));
      RowBytesAdd(q, m, above, q.r.parse(row));
    }
  }

  lemma {:induction false} InRowLengthSnoc(q: Query, attrs: seq<Entry>, e: Entry, k: nat)
    ensures InRowLength(q, attrs + [e], k) <==>
      InRowLength(q, attrs, k) || (Named(q, e) && e.value.Str? && ByteLength(e.value) == k)
  {
    assert e in attrs + [e];
    assert forall x :: x in attrs ==> x in attrs + [e];
  }

  ghost predicate IsLongestInRow(q: Query, attrs: seq<Entry>, n: nat) {
    && (n > 0 ==> InRowLength(q, attrs, n))
    && forall k: nat :: InRowLength(q, attrs, k) ==> k <= n
  }

  lemma {:induction false} LongestInRowSnoc(q: Query, attrs: seq<Entry>, e: Entry, n: nat)
    requires IsLongestInRow(q, attrs, n)
    ensures IsLongestInRow(q, attrs + [e], if Named(q, e) then Max(n, ByteLength(e.value)) else n)
  {
    forall k: nat
      ensures InRowLength(q, attrs + [e], k) <==>
        InRowLength(q, attrs, k) || (Named(q, e) && e.value.Str? && ByteLength(e.value) == k)
    {
      InRowLengthSnoc(q, attrs, e, k);
    }
  }

  lemma {:induction false} RowLongest(q: Query, m: Mark, p: Option<seq<Entry>>, attrs: seq<Entry>)
    ensures IsLongestInRow(q, attrs, Largest(StringLength, RowHits(q, m, p, attrs)))
    decreases |attrs|
  {
    if attrs != [] {
      var before, e := attrs[..|attrs| - 1], attrs[|attrs| - 1];
      assert attrs == before + [e];
      RowLongest(q, m, p, before);
      RowHitsSnoc(q, m, p, before, e);
      SumSnoc(StringLength, RowHits(q, m, p, before), Hit1(q, m, p, e));
      HitLength(q, m, p, e);
      LongestInRowSnoc(q, before, e, Largest(StringLength, RowHits(q, m, p, before)));
    }
  }

  lemma {:induction false} HasLengthSnoc(q: Query, rows: seq<string>, row: string, k: nat)
    ensures HasLength(q, rows + [row], k) <==> HasLength(q, rows, k) || InRowLength(q, q.r.parse(row), k)
  {
    var all := rows + [row];
    assert all[|rows|] == row;
    assert forall i :: 0 <= i < |rows| ==> all[i] == rows[i];
  }

  lemma {:induction false} LongestSnoc(q: Query, rows: seq<string>, row: string, n: nat, k: nat)
    requires IsLongest(q, rows, n) && IsLongestInRow(q, q.r.parse(row), k)
    ensures IsLongest(q, rows + [row], Max(n, k))
  {
    forall i: nat
      ensures HasLength(q, rows + [row], i) <==> HasLength(q, rows, i) || InRowLength(q, q.r.parse(row), i)
    {
      HasLengthSnoc(q, rows, row, i);
    }
  }

  lemma {:induction false} ColumnLongest(q: Query, m: Mark, rows: seq<string>, prev: Option<seq<Entry>>)
    ensures IsLongest(q, rows, Largest(StringLength, ColumnHits(q, m, rows, prev)))
    decreases |rows|
  {
    if rows != [] {
      var n := |rows| - 1;
      var before, row := rows[..n], rows[n];
      assert rows == before + [row];
      var above := Above(q, before, prev, n);
      ColumnLongest(q, m, before, prev);
      ColumnHitsSnoc(q, m, before, row, prev);
      SumOfConcat(StringLength, ColumnHits(q, m, before, prev), RowHits(q, m, above, q.r.parse(row)));
      RowLongest(q, m, above, q.r.parse(row));
      LongestSnoc(q, before, row, Largest(StringLength, ColumnHits(q, m, before, prev)),
        Largest(StringLength, RowHits(q, m, above, q.r.parse(row))));
    }
  }

  // ----- the key's slot

  /** Nothing was counted for the key before. */
  ghost predicate NotYet(c: Config, events: seq<Event>, h: u64) {
    forall e :: e in events && e.Observe? ==> c.hash(e.name) != h
  }

  lemma {:induction false} NothingSeen(c: Config, events: seq<Event>, h: u64)
    requires NotYet(c, events, h)
    ensures Only(h, Sightings(c, events)) == []
    decreases |events|
  {
    if events != [] {
      var n := |events| - 1;
      assert events[n] in events;
      NothingSeen(c, events[..n], h);
      if events[n].Observe? {
        OnlySnoc(h, Sightings(c, events[..n]), Seen(c, MarkAfter(c.widths, Times(events[..n])), events[n]));
      }
    }
  }

  /** A key's counters after a column, told from the column's rows. */
  ghost predicate TellsRows(q: Query, rows: seq<string>, prev: Option<seq<Entry>>, key: KeyAcc) {
    && key.rowsPresent == |Cells(q, rows, prev, AllPairs)|
    && key.runs == |Cells(q, rows, prev, RunStarts)|
    && key.rowsString == |Cells(q, rows, prev, Strings)|
    && key.strLenSum == Bytes(q, rows)
    && IsLongest(q, rows, key.strLenMax)
  }

  /** The counters are sums over the key's sightings. */
  ghost predicate SumsOf(key: KeyAcc, os: seq<Sighting>) {
    && key.rowsPresent == Sum(Rows, os) && key.runs == Sum(NewRuns, os) && key.rowsString == Sum(StringRows, os)
    && key.strLenSum == Sum(StringBytes, os) && key.strLenMax == Largest(StringLength, os)
  }

  lemma {:induction false} RetainedKey(c: Config, events: seq<Event>, h: u64)
    requires Begins(events) <= NO_SEG && h in Replay(c, events).keys.entries
    ensures SumsOf(Replay(c, events).keys.entries[h], Only(h, Sightings(c, events)))
  {
    TwoLevelRefinement(c, events);
    OneKey(c, events, h);
    OnlySeen(h, Sightings(c, events));
  }

  lemma {:induction false} HitsTellRows(q: Query, m: Mark, rows: seq<string>, prev: Option<seq<Entry>>, key: KeyAcc)
    requires Tidy(q, rows, prev) && SumsOf(key, ColumnHits(q, m, rows, prev))
    ensures TellsRows(q, rows, prev, key)
  {
    ColumnAdds(q, m, rows, prev, AllPairs);
    ColumnAdds(q, m, rows, prev, RunStarts);
    ColumnAdds(q, m, rows, prev, Strings);
    ColumnBytes(q, m, rows, prev);
    ColumnLongest(q, m, rows, prev);
  }

  lemma {:induction false} OnlyTheColumn(q: Query, before: seq<Event>, rows: seq<string>, prev: Option<seq<Entry>>)
    requires Begins(before) <= NO_SEG && NotYet(q.c, before, q.h)
    ensures var walk, m := Walk(q.r, q.scope, RowByRow(rows), prev), MarkAfter(q.c.widths, Times(before));
      && Begins(before + walk) <= NO_SEG
      && Only(q.h, Sightings(q.c, before + walk)) == ColumnHits(q, m, rows, prev)
  {
    var walk := Walk(q.r, q.scope, RowByRow(rows), prev);
    CallsAreObserves(q.r, q.scope, RowByRow(rows), prev);
    TimesOfCalls(before, walk);
    PickAfterCalls(q.c, before, walk, q.h);
    NothingSeen(q.c, before, q.h);
  }

  lemma {:induction false} WalkTellsRows(q: Query, before: seq<Event>, rows: seq<string>, prev: Option<seq<Entry>>)
    requires Begins(before) <= NO_SEG && NotYet(q.c, before, q.h) && Tidy(q, rows, prev)
    requires q.h in Replay(q.c, before + Walk(q.r, q.scope, RowByRow(rows), prev)).keys.entries
    ensures var events := before + Walk(q.r, q.scope, RowByRow(rows), prev);
      TellsRows(q, rows, prev, Replay(q.c, events).keys.entries[q.h])
  {
    var events := before + Walk(q.r, q.scope, RowByRow(rows), prev);
    OnlyTheColumn(q, before, rows, prev);
    RetainedKey(q.c, events, q.h);
    HitsTellRows(q, MarkAfter(q.c.widths, Times(before)), rows, prev, Replay(q.c, events).keys.entries[q.h]);
  }

  /** For either scanner, on a column of blobs with distinct keys and no NaN: the counters of every
      retained key that first appears in it are what its rows say. Its rows are the pairs named so; its runs
      are the pairs whose row above lacks the key or holds another value under it; its string rows and
      lengths are those of its string values. */
  lemma {:induction false} ScanTellsRows(q: Query, column: seq<Option<string>>, runs: seq<Run>,
      prev: Option<seq<Entry>>, prev': Option<seq<Entry>>, before: seq<Event>, after: seq<Event>)
    requires Scanned(q.r, q.scope, column, runs, prev, prev', before, after)
    requires Begins(before) <= NO_SEG && NotYet(q.c, before, q.h) && Tidy(q, Present(column), prev)
    requires q.h in Replay(q.c, after).keys.entries
    ensures TellsRows(q, Present(column), prev, Replay(q.c, after).keys.entries[q.h])
  {
    var rows := Present(column);
    forall b | b in rows
      ensures DistinctNoNaN(q.r.parse(b))
    {
      var i :| 0 <= i < |rows| && rows[i] == b;
    }
    ScanIsRowByRow(q.c, q.r, q.scope, column, runs, prev, prev', before, after);
    WalkTellsRows(q, before, rows, prev);
  }

  // ----- the values a scan reports

  ghost predicate Carried(c: Config, calls: seq<Event>, kh: u64, vh: u64) {
    exists e :: e in calls && Carries(c, e, kh, vh)
  }

  /** The row holds the key with a value whose text hashes to `vh`. */
  ghost predicate RowHolds(q: Query, attrs: seq<Entry>, vh: u64) {
    exists e :: e in attrs && Named(q, e) && q.c.hash(q.r.text(e.value)) == vh
  }

  ghost predicate ColumnHolds(q: Query, rows: seq<string>, vh: u64) {
    exists b :: b in rows && RowHolds(q, q.r.parse(b), vh)
  }

  lemma {:induction false} CallsCarry(q: Query, attrs: seq<Entry>, count: nat, prev: Option<seq<Entry>>, vh: u64)
    ensures Carried(q.c, Calls(q.r, q.scope, attrs, count, prev), q.h, vh) <==> RowHolds(q, attrs, vh)
  {
    var calls := Calls(q.r, q.scope, attrs, count, prev);
    CallAt(q.r, q.scope, attrs, count, prev);
    forall i | 0 <= i < |attrs|
      ensures Carries(q.c, calls[i], q.h, vh) <==> Named(q, attrs[i]) && q.c.hash(q.r.text(attrs[i].value)) == vh
    {
      assert Prefix(q.scope) + attrs[i].key == FullName(q.scope, attrs[i].key);
    }
    if e :| e in calls && Carries(q.c, e, q.h, vh) {
      var i :| 0 <= i < |calls| && calls[i] == e;
      assert attrs[i] in attrs;
    }
    if e :| e in attrs && Named(q, e) && q.c.hash(q.r.text(e.value)) == vh {
      var i :| 0 <= i < |attrs| && attrs[i] == e;
      assert calls[i] in calls;
    }
  }

  lemma {:induction false} CarriedInEither(c: Config, xs: seq<Event>, ys: seq<Event>, kh: u64, vh: u64)
    ensures Carried(c, xs + ys, kh, vh) <==> Carried(c, xs, kh, vh) || Carried(c, ys, kh, vh)
  {
    assert forall e :: e in xs + ys <==> e in xs || e in ys;
  }

  lemma {:induction false} HeldInEither(q: Query, xs: seq<string>, ys: seq<string>, vh: u64)
    ensures ColumnHolds(q, xs + ys, vh) <==> ColumnHolds(q, xs, vh) || ColumnHolds(q, ys, vh)
  {
    assert forall b :: b in xs + ys <==> b in xs || b in ys;
  }

  lemma {:induction false} HeldInCopies(q: Query, blob: string, n: nat, vh: u64)
    requires n >= 1
    ensures ColumnHolds(q, seq(n, _ => blob), vh) <==> RowHolds(q, q.r.parse(blob), vh)
  {
    var rows := seq(n, _ => blob);
    assert rows[0] == blob && blob in rows;
  }

  lemma {:induction false} WalkCarries(q: Query, runs: seq<Run>, prev: Option<seq<Entry>>, vh: u64)
    requires AtLeastOne(runs)
    ensures Carried(q.c, Walk(q.r, q.scope, runs, prev), q.h, vh) <==> ColumnHolds(q, Expand(runs), vh)
    decreases |runs|
  {
    if runs != [] {
      var n := |runs| - 1;
      var before, last := runs[..n], runs[n];
      var p := PrevAfter(q.r, before, prev);
      var calls := Calls(q.r, q.scope, q.r.parse(last.blob), last.count, p);
      WalkCarries(q, before, prev, vh);
      CarriedInEither(q.c, Walk(q.r, q.scope, before, prev), calls, q.h, vh);
      CallsCarry(q, q.r.parse(last.blob), last.count, p, vh);
      HeldInEither(q, Expand(before), seq(last.count, _ => last.blob), vh);
      HeldInCopies(q, last.blob, last.count, vh);
    }
  }

  /** What a scan of a column reports about a key and a value: they are seen together exactly when some
      row of the column holds the key with a value of that text. */
  lemma {:induction false} ScanReportsIff(q: Query, column: seq<Option<string>>, runs: seq<Run>,
      prev: Option<seq<Entry>>, prev': Option<seq<Entry>>, before: seq<Event>, after: seq<Event>, vh: u64)
    requires Scanned(q.r, q.scope, column, runs, prev, prev', before, after)
    ensures Carried(q.c, after[|before|..], q.h, vh) <==> ColumnHolds(q, Present(column), vh)
  {
    assert after[|before|..] == Walk(q.r, q.scope, runs, prev);
    WalkCarries(q, runs, prev, vh);
  }

  // ----- equal values

  function NoNegativeZero(v: AnyValue): AnyValue {
    match v
    case Dbl(d) => if d == Finite("-0.0") then Dbl(Finite("0.0")) else v
    case Array(xs) => Array(seq(|xs|, i requires 0 <= i < |xs| => NoNegativeZero(xs[i])))
    case Map(xs) => Map(seq(|xs|, i requires 0 <= i < |xs| => Entry(xs[i].key, NoNegativeZero(xs[i].value))))
    case _ => v
  }

  /** Values are equal exactly when they are the same up to the sign of zeros and hold no NaN. */
  lemma {:induction false} SameValueIff(a: AnyValue, b: AnyValue)
    ensures SameValue(a, b) <==> !HasNaN(a) && NoNegativeZero(a) == NoNegativeZero(b)
    decreases a
  {
    match (a, b)
    case (Array(xs), Array(ys)) =>
      forall i | 0 <= i < |xs| && i < |ys|
        ensures SameValue(xs[i], ys[i]) <==> !HasNaN(xs[i]) && NoNegativeZero(xs[i]) == NoNegativeZero(ys[i])
      {
        SameValueIff(xs[i], ys[i]);
      }
      SameItemsIff(xs, ys);
    case (Map(xs), Map(ys)) =>
      forall i | 0 <= i < |xs| && i < |ys|
        ensures SameValue(xs[i].value, ys[i].value) <==>
          !HasNaN(xs[i].value) && NoNegativeZero(xs[i].value) == NoNegativeZero(ys[i].value)
      {
        SameValueIff(xs[i].value, ys[i].value);
      }
      SameEntriesIff(xs, ys);
    case _ =>
  }

  lemma {:induction false} SameItemsIff(xs: seq<AnyValue>, ys: seq<AnyValue>)
    ensures NoNegativeZero(Array(xs)) == NoNegativeZero(Array(ys)) <==>
      |xs| == |ys| && forall i :: 0 <= i < |xs| ==> NoNegativeZero(xs[i]) == NoNegativeZero(ys[i])
  {
    var p, q := NoNegativeZero(Array(xs)).items, NoNegativeZero(Array(ys)).items;
    assert |p| == |xs| && |q| == |ys|;
    assert forall i :: 0 <= i < |xs| ==> p[i] == NoNegativeZero(xs[i]);
    assert forall i :: 0 <= i < |ys| ==> q[i] == NoNegativeZero(ys[i]);
  }

  lemma {:induction false} SameEntriesIff(xs: seq<Entry>, ys: seq<Entry>)
    ensures NoNegativeZero(Map(xs)) == NoNegativeZero(Map(ys)) <==>
      && |xs| == |ys|
      && forall i :: 0 <= i < |xs| ==>
           xs[i].key == ys[i].key && NoNegativeZero(xs[i].value) == NoNegativeZero(ys[i].value)
  {
    var p, q := NoNegativeZero(Map(xs)).entries, NoNegativeZero(Map(ys)).entries;
    assert |p| == |xs| && |q| == |ys|;
    assert forall i :: 0 <= i < |xs| ==> p[i] == Entry(xs[i].key, NoNegativeZero(xs[i].value));
    assert forall i :: 0 <= i < |ys| ==> q[i] == Entry(ys[i].key, NoNegativeZero(ys[i].value));
  }
}
