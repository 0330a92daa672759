/** Reading attribute columns into the accumulator (crates/imbh-attrstats/src/scan.rs).

    The scanners coalesce consecutive equal blobs into one call carrying a count. `CoalescingIsInvisible`
    says this changes nothing: the accumulator ends in the state a row-at-a-time walk leaves. */
module Scans {
  import opened Basics
  import opened Values
  import opened Accumulator

  // ----- `PartialEq` on values

  predicate IsZero(d: Double) {
    d == Finite("0.0") || d == Finite("-0.0")
  }

  predicate SameDouble(a: Double, b: Double) {
    !a.NaN? && !b.NaN? && (a == b || (IsZero(a) && IsZero(b)))
  }

  /** Rust's `==` on values: doubles compare as numbers, so NaN differs from itself. */
  predicate SameValue(a: AnyValue, b: AnyValue) {
    match (a, b)
    case (Dbl(x), Dbl(y)) => SameDouble(x, y)
    case (Array(xs), Array(ys)) => |xs| == |ys| && forall i :: 0 <= i < |xs| ==> SameValue(xs[i], ys[i])
    case (Map(xs), Map(ys)) =>
      |xs| == |ys| && forall i :: 0 <= i < |xs| ==> xs[i].key == ys[i].key && SameValue(xs[i].value, ys[i].value)
    case _ => a == b
  }

  predicate HasNaN(v: AnyValue) {
    match v
    case Dbl(d) => d.NaN?
    case Array(xs) => exists i :: 0 <= i < |xs| && HasNaN(xs[i])
    case Map(xs) => exists i :: 0 <= i < |xs| && HasNaN(xs[i].value)
    case _ => false
  }

  lemma {:induction false} SameAsItself(v: AnyValue)
    ensures SameValue(v, v) <==> !HasNaN(v)
  {
    match v
    case Array(xs) =>
      forall i | 0 <= i < |xs|
        ensures SameValue(xs[i], xs[i]) <==> !HasNaN(xs[i])
      {
        SameAsItself(xs[i]);
      }
    case Map(xs) =>
      forall i | 0 <= i < |xs|
        ensures SameValue(xs[i].value, xs[i].value) <==> !HasNaN(xs[i].value)
      {
        SameAsItself(xs[i].value);
      }
    case _ =>
  }

  function Prefix(scope: AttrScope): string {
    match scope
    case Attributes => ""
    case Resource => "resource:"
    case Scope => "scope:"
  }

  /** The pieces of `imbh-core` a scan calls: reading a blob and writing a value as text. */
  datatype Reader = Reader(parse: string -> seq<Entry>, text: AnyValue -> string)

  predicate StartsRun(prev: Option<seq<Entry>>, e: Entry) {
    match prev
    case None => true
    case Some(p) =>
      match Find(p, e.key)
      case None => true
      case Some(v) => !SameValue(v, e.value)
  }

  function CallFor(r: Reader, scope: AttrScope, e: Entry, count: nat, newRun: bool): Event {
    Observe(scope, Prefix(scope) + e.key, e.value, r.text(e.value), count, newRun)
  }

  /** The calls `apply` makes for one blob. */
  function Calls(r: Reader, scope: AttrScope, attrs: seq<Entry>, count: nat, prev: Option<seq<Entry>>): seq<Event> {
    if attrs == [] then []
    else
      var n := |attrs| - 1;
      Calls(r, scope, attrs[..n], count, prev) + [CallFor(r, scope, attrs[n], count, StartsRun(prev, attrs[n]))]
  }

  /** A blob repeated on `count` consecutive rows. */
  datatype Run = Run(blob: string, count: nat)

  function PrevAfter(r: Reader, runs: seq<Run>, prev: Option<seq<Entry>>): Option<seq<Entry>> {
    if runs == [] then prev else Some(r.parse(runs[|runs| - 1].blob))
  }

  /** All the calls for a sequence of runs, the previous row's attributes carried along. */
  function Walk(r: Reader, scope: AttrScope, runs: seq<Run>, prev: Option<seq<Entry>>): seq<Event> {
    if runs == [] then []
    else
      var n := |runs| - 1;
      Walk(r, scope, runs[..n], prev)
        + Calls(r, scope, r.parse(runs[n].blob), runs[n].count, PrevAfter(r, runs[..n], prev))
  }

  /** The rows a sequence of runs stands for. */
  function Expand(runs: seq<Run>): seq<string> {
    if runs == [] then []
    else Expand(runs[..|runs| - 1]) + seq(runs[|runs| - 1].count, _ => runs[|runs| - 1].blob)
  }

  /** The rows that carry a blob at all. */
  function Present(column: seq<Option<string>>): seq<string> {
    if column == [] then []
    else
      var n := |column| - 1;
      Present(column[..n]) + if column[n].Some? then [column[n].value] else []
  }

  /** One run per row: the row-at-a-time walk. */
  function RowByRow(rows: seq<string>): seq<Run> {
    seq(|rows|, i requires 0 <= i < |rows| => Run(rows[i], 1))
  }

  lemma {:induction false} ExpandLonger(runs: seq<Run>, b: string, n: nat)
    ensures Expand(runs + [Run(b, n + 1)]) == Expand(runs + [Run(b, n)]) + [b]
    ensures Expand(runs + [Run(b, 1)]) == Expand(runs) + [b]
  {
    assert (runs + [Run(b, n + 1)])[..|runs|] == runs;
    assert (runs + [Run(b, n)])[..|runs|] == runs;
    assert (runs + [Run(b, 1)])[..|runs|] == runs;
  }

  lemma {:induction false} WalkSnoc(r: Reader, scope: AttrScope, runs: seq<Run>, run: Run, prev: Option<seq<Entry>>)
    ensures Walk(r, scope, runs + [run], prev)
      == Walk(r, scope, runs, prev) + Calls(r, scope, r.parse(run.blob), run.count, PrevAfter(r, runs, prev))
  {
    assert (runs + [run])[..|runs|] == runs;
  }

  lemma {:induction false} WalkGrows(r: Reader, scope: AttrScope, runs: seq<Run>, run: Run, prev: Option<seq<Entry>>,
      origin: seq<Event>)
    ensures origin + Walk(r, scope, runs, prev)
      + Calls(r, scope, r.parse(run.blob), run.count, PrevAfter(r, runs, prev))
      == origin + Walk(r, scope, runs + [run], prev)
    ensures PrevAfter(r, runs + [run], prev) == Some(r.parse(run.blob))
  {
    WalkSnoc(r, scope, runs, run, prev);
    var calls := Calls(r, scope, r.parse(run.blob), run.count, PrevAfter(r, runs, prev));
    ConcatAssociates(origin, Walk(r, scope, runs, prev), calls);
  }

  lemma {:induction false} PresentSnoc(column: seq<Option<string>>, i: nat)
    requires i < |column|
    ensures column[i].Some? ==> Present(column[..i + 1]) == Present(column[..i]) + [column[i].value]
    ensures column[i].None? ==> Present(column[..i + 1]) == Present(column[..i])
  {
    assert column[..i + 1][..i] == column[..i];
  }

  // ----- the scanners

  /** `apply`: fold each pair of one blob into the sink, `count` times. */
  method Apply(r: Reader, blob: string, scope: AttrScope, sink: Acc, count: nat, prev: Option<seq<Entry>>)
    returns (prev': Option<seq<Entry>>)
    requires sink.Valid()
    modifies sink
    ensures sink.Valid() && prev' == Some(r.parse(blob))
    ensures sink.log == old(sink.log) + Calls(r, scope, r.parse(blob), count, prev)
  {
    var attrs := r.parse(blob);
    var calls := Pairs(r, scope, attrs, count, prev);
    sink.MakeCalls(calls);
    prev' := Some(attrs);
  }

  /** The loop over the pairs of a blob. */
  method Pairs(r: Reader, scope: AttrScope, attrs: seq<Entry>, count: nat, prev: Option<seq<Entry>>)
      returns (calls: seq<Event>)
    ensures calls == Calls(r, scope, attrs, count, prev)
    ensures forall e :: e in calls ==> e.Observe?
  {
    calls := [];
    for i := 0 to |attrs|
      invariant calls == Calls(r, scope, attrs[..i], count, prev)
      invariant forall e :: e in calls ==> e.Observe?
    {
      var newRun := StartsRun(prev, attrs[i]);
      calls := calls + [CallFor(r, scope, attrs[i], count, newRun)];
      assert attrs[..i + 1][..i] == attrs[..i];
    }
    assert attrs[..|attrs|] == attrs;
  }

  ghost predicate AtLeastOne(runs: seq<Run>) {
    forall i :: 0 <= i < |runs| ==> runs[i].count >= 1
  }

  /** Apply one finished run, keeping track of the runs walked since `start`. */
  method Close(r: Reader, run: Run, scope: AttrScope, sink: Acc, prev: Option<seq<Entry>>,
               ghost runs: seq<Run>, ghost start: Option<seq<Entry>>, ghost origin: seq<Event>)
    returns (prev': Option<seq<Entry>>)
    requires sink.Valid() && AtLeastOne(runs) && run.count >= 1
    requires sink.log == origin + Walk(r, scope, runs, start) && prev == PrevAfter(r, runs, start)
    modifies sink
    ensures sink.Valid() && AtLeastOne(runs + [run])
    ensures sink.log == origin + Walk(r, scope, runs + [run], start)
    ensures prev' == PrevAfter(r, runs + [run], start)
  {
    prev' := Apply(r, run.blob, scope, sink, run.count, prev);
    WalkGrows(r, scope, runs, run, start, origin);
  }

  /** Apply the open run, if there is one. */
  method EndRun(r: Reader, blob: Option<string>, count: nat, scope: AttrScope, sink: Acc, prev: Option<seq<Entry>>,
                ghost runs: seq<Run>, ghost start: Option<seq<Entry>>, ghost origin: seq<Event>)
    returns (prev': Option<seq<Entry>>, ghost runs': seq<Run>)
    requires sink.Valid() && AtLeastOne(runs) && (blob.Some? ==> count >= 1)
    requires sink.log == origin + Walk(r, scope, runs, start) && prev == PrevAfter(r, runs, start)
    modifies sink
    ensures sink.Valid() && AtLeastOne(runs') && runs' == OpenRun(runs, blob, count)
    ensures sink.log == origin + Walk(r, scope, runs', start) && prev' == PrevAfter(r, runs', start)
  {
    prev', runs' := prev, runs;
    if blob.Some? {
      prev' := Close(r, Run(blob.value, count), scope, sink, prev, runs, start, origin);
      runs' := runs + [Run(blob.value, count)];
    }
  }

  /** The finished runs and the open one. */
  ghost function OpenRun(runs: seq<Run>, blob: Option<string>, count: nat): seq<Run> {
    if blob.Some? then runs + [Run(blob.value, count)] else runs
  }

  /** One more row in the open run, or the first. */
  lemma {:induction false} OneMore(runs: seq<Run>, blob: Option<string>, n: nat)
    ensures blob.Some? ==> Expand(OpenRun(runs, blob, n + 1)) == Expand(OpenRun(runs, blob, n)) + [blob.value]
    ensures blob.Some? ==> Expand(OpenRun(runs, blob, 1)) == Expand(runs) + [blob.value]
    ensures blob.None? ==> OpenRun(runs, blob, n) == runs
  {
    if blob.Some? {
      ExpandLonger(runs, blob.value, n);
    }
  }

  /** What a scanner did to the sink: some coalescing of the column's present rows was walked. */
  ghost predicate Scanned(r: Reader, scope: AttrScope, column: seq<Option<string>>, runs: seq<Run>,
                          prev: Option<seq<Entry>>, prev': Option<seq<Entry>>, before: seq<Event>, after: seq<Event>)
  {
    && Expand(runs) == Present(column)
    && AtLeastOne(runs)
    && after == before + Walk(r, scope, runs, prev)
    && prev' == PrevAfter(r, runs, prev)
  }

  /** The loop body of `scan_utf8`: one row joins the open run, or closes it. */
  method Utf8Row(r: Reader, row: Option<string>, open: Option<string>, count: nat,
                 scope: AttrScope, sink: Acc, prev: Option<seq<Entry>>,
                 ghost runs: seq<Run>, ghost start: Option<seq<Entry>>, ghost origin: seq<Event>)
    returns (open': Option<string>, count': nat, prev': Option<seq<Entry>>, ghost runs': seq<Run>)
    requires sink.Valid() && AtLeastOne(runs) && (open.Some? ==> count >= 1)
    requires sink.log == origin + Walk(r, scope, runs, start) && prev == PrevAfter(r, runs, start)
    modifies sink
    ensures sink.Valid() && AtLeastOne(runs') && (open'.Some? ==> count' >= 1)
    ensures sink.log == origin + Walk(r, scope, runs', start) && prev' == PrevAfter(r, runs', start)
    ensures row.None? ==> Expand(OpenRun(runs', open', count')) == Expand(OpenRun(runs, open, count))
    ensures row.Some? ==> Expand(OpenRun(runs', open', count')) == Expand(OpenRun(runs, open, count)) + [row.value]
  {
    prev', runs' := prev, runs;
    if row.Some? && open == row {
      open', count' := open, count + 1;
      OneMore(runs, row, count);
    } else {
      prev', runs' := EndRun(r, open, count, scope, sink, prev, runs, start, origin);
      open', count' := row, if row.Some? then 1 else 0;
      OneMore(runs', row, 0);
    }
  }

  /** `scan_utf8`: coalesce consecutive equal blobs of a plain column. */
  method ScanUtf8(r: Reader, column: seq<Option<string>>, scope: AttrScope, sink: Acc, prev: Option<seq<Entry>>)
    returns (prev': Option<seq<Entry>>, ghost runs: seq<Run>)
    requires sink.Valid()
    modifies sink
    ensures sink.Valid() && Scanned(r, scope, column, runs, prev, prev', old(sink.log), sink.log)
  {
    prev', runs := prev, [];
    var runStart: Option<string> := None;
    var run := 0;
    for i := 0 to |column|
      invariant sink.Valid()
      invariant sink.log == old(sink.log) + Walk(r, scope, runs, prev)
      invariant prev' == PrevAfter(r, runs, prev)
      invariant AtLeastOne(runs) && (runStart.Some? ==> run >= 1)
      invariant Expand(OpenRun(runs, runStart, run)) == Present(column[..i])
    {
      PresentSnoc(column, i);
      runStart, run, prev', runs := Utf8Row(r, column[i], runStart, run, scope, sink, prev', runs, prev, old(sink.log));
    }
    assert column[..|column|] == column;
    prev', runs := EndRun(r, runStart, run, scope, sink, prev', runs, prev, old(sink.log));
  }

  /** The blob a dictionary row stands for; a null, absent or out-of-range entry stands for none. */
  function Looked(values: seq<Option<string>>, key: Option<nat>): Option<string> {
    if key.Some? && key.value < |values| then values[key.value] else None
  }

  /** The plain column a dictionary column encodes. */
  function Decoded(keys: seq<Option<nat>>, values: seq<Option<string>>): seq<Option<string>> {
    seq(|keys|, i requires 0 <= i < |keys| => Looked(values, keys[i]))
  }

  /** `flush` inside `scan_dictionary`: nothing for an entry that stands for no blob. */
  method Flush(r: Reader, values: seq<Option<string>>, idx: nat, scope: AttrScope, sink: Acc, count: nat,
               prev: Option<seq<Entry>>,
               ghost runs: seq<Run>, ghost start: Option<seq<Entry>>, ghost origin: seq<Event>)
    returns (prev': Option<seq<Entry>>, ghost runs': seq<Run>)
    requires sink.Valid() && AtLeastOne(runs) && count > 0
    requires sink.log == origin + Walk(r, scope, runs, start) && prev == PrevAfter(r, runs, start)
    modifies sink
    ensures sink.Valid() && AtLeastOne(runs')
    ensures runs' == OpenRun(runs, Looked(values, Some(idx)), count)
    ensures sink.log == origin + Walk(r, scope, runs', start) && prev' == PrevAfter(r, runs', start)
  {
    prev', runs' := prev, runs;
    if count > 0 && idx < |values| && values[idx].Some? {
      prev', runs' := EndRun(r, values[idx], count, scope, sink, prev, runs, start, origin);
    }
  }

  /** `scan_dictionary`: coalesce consecutive equal indices of a dictionary column. */
  method ScanDictionary(r: Reader, keys: seq<Option<nat>>, values: seq<Option<string>>, scope: AttrScope, sink: Acc,
      prev: Option<seq<Entry>>)
    returns (prev': Option<seq<Entry>>, ghost runs: seq<Run>)
    requires sink.Valid()
    modifies sink
    ensures sink.Valid() && Scanned(r, scope, Decoded(keys, values), runs, prev, prev', old(sink.log), sink.log)
  {
    prev', runs := prev, [];
    ghost var column := Decoded(keys, values);
    var runIdx: Option<nat> := None;
    var run := 0;
    for i := 0 to |keys|
      invariant sink.Valid()
      invariant sink.log == old(sink.log) + Walk(r, scope, runs, prev)
      invariant prev' == PrevAfter(r, runs, prev)
      invariant AtLeastOne(runs) && (runIdx.Some? ==> run > 0)
      invariant Expand(OpenRun(runs, Looked(values, runIdx), run)) == Present(column[..i])
    {
      PresentSnoc(column, i);
      if keys[i].None? {
        if runIdx.Some? {
          prev', runs := Flush(r, values, runIdx.value, scope, sink, run, prev', runs, prev, old(sink.log));
        }
        runIdx := None;
        run := 0;
      } else if runIdx.Some? && runIdx.value == keys[i].value {
        OneMore(runs, column[i], run);
        run := run + 1;
      } else {
        if runIdx.Some? {
          prev', runs := Flush(r, values, runIdx.value, scope, sink, run, prev', runs, prev, old(sink.log));
        }
        runIdx := keys[i];
        run := 1;
        OneMore(runs, column[i], 0);
      }
    }
    assert column[..|keys|] == column;
    if runIdx.Some? {
      prev', runs := Flush(r, values, runIdx.value, scope, sink, run, prev', runs, prev, old(sink.log));
    }
  }
}
