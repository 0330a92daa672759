/** When coalescing equal rows would show: exactly how many runs a row-at-a-time walk counts more
    (crates/imbh-attrstats/src/scan.rs). */
module RunCounts {
  import opened Basics
  import opened Values
  import opened Accumulator
  import opened Scans
  import opened Coalescing

  /** How many of the calls report a new run. */
  function NewRunCalls(calls: seq<Event>): nat {
    if calls == [] then 0
    else
      var e := calls[|calls| - 1];
      NewRunCalls(calls[..|calls| - 1]) + if e.Observe? && e.newRun then 1 else 0
  }

  /** How many pairs of a blob start a run on a row that follows `prev`. */
  function Started(prev: Option<seq<Entry>>, attrs: seq<Entry>): nat {
    if attrs == [] then 0
    else
      var n := |attrs| - 1;
      Started(prev, attrs[..n]) + if StartsRun(prev, attrs[n]) then 1 else 0
  }

  /** How many runs a blob starts on a row that repeats it. */
  function Restarted(attrs: seq<Entry>): nat { Started(Some(attrs), attrs) }

  lemma {:induction false} NewRunsOfConcat(xs: seq<Event>, ys: seq<Event>)
    ensures NewRunCalls(xs + ys) == NewRunCalls(xs) + NewRunCalls(ys)
    decreases |ys|
  {
    if ys == [] {
      assert xs + ys == xs;
    } else {
      NewRunsOfConcat(xs, ys[..|ys| - 1]);
      assert (xs + ys)[..|xs + ys| - 1] == xs + ys[..|ys| - 1];
    }
  }

  lemma {:induction false} NewRunsSnoc(calls: seq<Event>, e: Event)
    ensures NewRunCalls(calls + [e]) == NewRunCalls(calls) + if e.Observe? && e.newRun then 1 else 0
  {
    assert (calls + [e])[..|calls|] == calls;
  }

  lemma {:induction false} NewRunsOfCalls(r: Reader, scope: AttrScope, attrs: seq<Entry>, count: nat,
      prev: Option<seq<Entry>>)
    ensures NewRunCalls(Calls(r, scope, attrs, count, prev)) == Started(prev, attrs)
    decreases |attrs|
  {
    if attrs != [] {
      var n := |attrs| - 1;
      NewRunsOfCalls(r, scope, attrs[..n], count, prev);
      var last := CallFor(r, scope, attrs[n], count, StartsRun(prev, attrs[n]));
      NewRunsSnoc(Calls(r, scope, attrs[..n], count, prev), last);
    }
  }

  lemma {:induction false} StartedNoneIff(prev: Option<seq<Entry>>, attrs: seq<Entry>)
    ensures Started(prev, attrs) == 0 <==> forall i :: 0 <= i < |attrs| ==> !StartsRun(prev, attrs[i])
    decreases |attrs|
  {
    if attrs != [] {
      var n := |attrs| - 1;
      StartedNoneIff(prev, attrs[..n]);
      assert forall i :: 0 <= i < n ==> attrs[..n][i] == attrs[i];
    }
  }

  // ----- a run against its rows

  lemma {:induction false} NewRunsStep(r: Reader, scope: AttrScope, before: seq<Run>, last: Run,
      prev: Option<seq<Entry>>)
    ensures NewRunCalls(Walk(r, scope, before + [last], prev))
      == NewRunCalls(Walk(r, scope, before, prev)) + Started(PrevAfter(r, before, prev), r.parse(last.blob))
  {
    var p, attrs := PrevAfter(r, before, prev), r.parse(last.blob);
    WalkSnoc(r, scope, before, last, prev);
    NewRunsOfConcat(Walk(r, scope, before, prev), Calls(r, scope, attrs, last.count, p));
    NewRunsOfCalls(r, scope, attrs, last.count, p);
  }

  lemma CopiesSnoc(r: Reader, blob: string, n: nat, prev: Option<seq<Entry>>)
    ensures Copies(blob, n + 1) == Copies(blob, n) + [Run(blob, 1)]
    ensures PrevAfter(r, Copies(blob, n + 1), prev) == Some(r.parse(blob))
  {
  }

  lemma OneMoreTimes(n: nat, k: nat)
    ensures n * k + k == (n + 1) * k
  {
  }

  /** Row by row, a blob starts its runs once and restarts some on every further row. */
  lemma {:induction false} NewRunsOfCopies(r: Reader, scope: AttrScope, blob: string, n: nat, prev: Option<seq<Entry>>)
    ensures var attrs := r.parse(blob);
      NewRunCalls(Walk(r, scope, Copies(blob, n + 1), prev)) == Started(prev, attrs) + n * Restarted(attrs)
    decreases n
  {
    var attrs, one, rows := r.parse(blob), Run(blob, 1), Copies(blob, n);
    CopiesSnoc(r, blob, n, prev);
    NewRunsStep(r, scope, rows, one, prev);
    if n == 0 {
      assert rows == [];
    } else {
      CopiesSnoc(r, blob, n - 1, prev);
      NewRunsOfCopies(r, scope, blob, n - 1, prev);
      OneMoreTimes(n - 1, Restarted(attrs));
    }
  }

  /** The runs that coalescing hides: every repeat of a blob restarts the same ones. */
  function Hidden(r: Reader, runs: seq<Run>): nat
    requires AtLeastOne(runs)
  {
    if runs == [] then 0
    else
      var last := runs[|runs| - 1];
      Hidden(r, runs[..|runs| - 1]) + (last.count - 1) * Restarted(r.parse(last.blob))
  }

  lemma {:induction false} HiddenStep(r: Reader, before: seq<Run>, last: Run)
    requires AtLeastOne(before + [last]) && AtLeastOne(before)
    ensures last.count >= 1
    ensures Hidden(r, before + [last]) == Hidden(r, before) + (last.count - 1) * Restarted(r.parse(last.blob))
  {
    assert (before + [last])[|before|] == last && (before + [last])[..|before|] == before;
  }

  lemma {:induction false} LastRunRows(r: Reader, scope: AttrScope, rows: seq<Run>, last: Run, prev: Option<seq<Entry>>)
    requires last.count >= 1
    ensures var attrs := r.parse(last.blob);
      NewRunCalls(Walk(r, scope, rows + Copies(last.blob, last.count), prev))
        == NewRunCalls(Walk(r, scope, rows, prev)) + Started(PrevAfter(r, rows, prev), attrs)
         + (last.count - 1) * Restarted(attrs)
  {
    var copies, p := Copies(last.blob, last.count), PrevAfter(r, rows, prev);
    WalkOfConcat(r, scope, rows, copies, prev);
    NewRunsOfConcat(Walk(r, scope, rows, prev), Walk(r, scope, copies, p));
    NewRunsOfCopies(r, scope, last.blob, last.count - 1, p);
  }

  /** Walking the rows of any coalescing one at a time counts exactly the hidden runs more. */
  lemma {:induction false} RowsCountHiddenRuns(r: Reader, scope: AttrScope, runs: seq<Run>, prev: Option<seq<Entry>>)
    requires AtLeastOne(runs)
    ensures NewRunCalls(Walk(r, scope, RowByRow(Expand(runs)), prev))
      == NewRunCalls(Walk(r, scope, runs, prev)) + Hidden(r, runs)
    ensures PrevAfter(r, RowByRow(Expand(runs)), prev) == PrevAfter(r, runs, prev)
    decreases |runs|
  {
    if runs != [] {
      var n := |runs| - 1;
      var before, last := runs[..n], runs[n];
      assert runs == before + [last];
      RowsCountHiddenRuns(r, scope, before, prev);
      RowsOfRuns(r, runs, prev);
      LastRunRows(r, scope, RowByRow(Expand(before)), last, prev);
      NewRunsStep(r, scope, before, last, prev);
      HiddenStep(r, before, last);
    }
  }

  /** Every blob that is repeated is steady. */
  ghost predicate RepeatsAreSteady(r: Reader, runs: seq<Run>) {
    forall i :: 0 <= i < |runs| && runs[i].count > 1 ==> Steady(r.parse(runs[i].blob))
  }

  lemma ZeroProduct(n: nat, k: nat)
    ensures n * k == 0 <==> n == 0 || k == 0
  {
  }

  lemma {:induction false} SteadyStep(r: Reader, before: seq<Run>, last: Run)
    ensures RepeatsAreSteady(r, before + [last]) <==>
      RepeatsAreSteady(r, before) && (last.count > 1 ==> Steady(r.parse(last.blob)))
  {
    var runs := before + [last];
    assert forall i :: 0 <= i < |before| ==> runs[i] == before[i];
    assert runs[|before|] == last;
  }

  lemma {:induction false} NothingHiddenIff(r: Reader, runs: seq<Run>)
    requires AtLeastOne(runs)
    ensures Hidden(r, runs) == 0 <==> RepeatsAreSteady(r, runs)
    decreases |runs|
  {
    if runs != [] {
      var before, last := runs[..|runs| - 1], runs[|runs| - 1];
      var attrs := r.parse(last.blob);
      assert runs == before + [last];
      NothingHiddenIff(r, before);
      HiddenStep(r, before, last);
      SteadyStep(r, before, last);
      StartedNoneIff(Some(attrs), attrs);
      ZeroProduct(last.count - 1, Restarted(attrs));
    }
  }

  /** The condition is exact: coalesced or row by row, a column counts the same runs if and only if
      every blob on two or more consecutive rows is steady. */
  lemma {:induction false} RunsCountAlikeIff(r: Reader, scope: AttrScope, runs: seq<Run>, prev: Option<seq<Entry>>)
    requires AtLeastOne(runs)
    ensures NewRunCalls(Walk(r, scope, runs, prev)) == NewRunCalls(Walk(r, scope, RowByRow(Expand(runs)), prev))
      <==> RepeatsAreSteady(r, runs)
  {
    RowsCountHiddenRuns(r, scope, runs, prev);
    NothingHiddenIff(r, runs);
  }

  // ----- which blobs are steady

  predicate IsFirst(attrs: seq<Entry>, i: nat)
    requires i < |attrs|
  {
    forall j :: 0 <= j < i ==> attrs[j].key != attrs[i].key
  }

  /** No value holds a NaN, and a repeated key repeats the first value under it. */
  predicate Consistent(attrs: seq<Entry>) {
    && (forall i :: 0 <= i < |attrs| ==> !HasNaN(attrs[i].value))
    && (forall i, j :: 0 <= i < j < |attrs| && IsFirst(attrs, i) && attrs[i].key == attrs[j].key ==>
          SameValue(attrs[i].value, attrs[j].value))
  }

  /** A NaN anywhere inside keeps a value from equalling anything. */
  lemma {:induction false} NaNEqualsNothing(a: AnyValue, b: AnyValue)
    ensures SameValue(a, b) ==> !HasNaN(b)
    decreases b
  {
    match (a, b)
    case (Array(xs), Array(ys)) =>
      forall i | 0 <= i < |xs| && i < |ys|
        ensures SameValue(xs[i], ys[i]) ==> !HasNaN(ys[i])
      {
        NaNEqualsNothing(xs[i], ys[i]);
      }
    case (Map(xs), Map(ys)) =>
      forall i | 0 <= i < |xs| && i < |ys|
        ensures SameValue(xs[i].value, ys[i].value) ==> !HasNaN(ys[i].value)
      {
        NaNEqualsNothing(xs[i].value, ys[i].value);
      }
    case _ =>
  }

  lemma {:induction false} FirstUnder(attrs: seq<Entry>, i: nat) returns (f: nat)
    requires i < |attrs|
    ensures f <= i && IsFirst(attrs, f) && attrs[f].key == attrs[i].key
    ensures Find(attrs, attrs[i].key) == Some(attrs[f].value)
    decreases i
  {
    if IsFirst(attrs, i) {
      f := i;
      FindFirst(attrs, i);
    } else {
      var j :| 0 <= j < i && attrs[j].key == attrs[i].key;
      f := FirstUnder(attrs, j);
    }
  }

  /** A blob is steady exactly when it is consistent. */
  lemma {:induction false} SteadyIff(attrs: seq<Entry>)
    ensures Steady(attrs) <==> Consistent(attrs)
  {
    if Steady(attrs) {
      SteadyIsConsistent(attrs);
    }
    if Consistent(attrs) {
      forall i | 0 <= i < |attrs|
        ensures !StartsRun(Some(attrs), attrs[i])
      {
        var f := FirstUnder(attrs, i);
        SameAsItself(attrs[i].value);
      }
    }
  }

  lemma {:induction false} SteadyIsConsistent(attrs: seq<Entry>)
    requires Steady(attrs)
    ensures Consistent(attrs)
  {
    forall i | 0 <= i < |attrs|
      ensures !HasNaN(attrs[i].value)
    {
      var f := FirstUnder(attrs, i);
      assert !StartsRun(Some(attrs), attrs[i]);
      NaNEqualsNothing(attrs[f].value, attrs[i].value);
    }
    forall i, j | 0 <= i < j < |attrs| && IsFirst(attrs, i) && attrs[i].key == attrs[j].key
      ensures SameValue(attrs[i].value, attrs[j].value)
    {
      FindFirst(attrs, i);
      assert !StartsRun(Some(attrs), attrs[j]);
    }
  }

  // ----- blobs that show the difference, and one that does not

  /** A repeated row of a blob that is not consistent counts more runs row by row. */
  lemma {:induction false} RepeatShows(r: Reader, scope: AttrScope, blob: string, prev: Option<seq<Entry>>)
    requires !Consistent(r.parse(blob))
    ensures NewRunCalls(Walk(r, scope, RowByRow([blob, blob]), prev))
      > NewRunCalls(Walk(r, scope, [Run(blob, 2)], prev))
  {
    var runs := [Run(blob, 2)];
    assert Expand(runs) == [blob, blob] by {
      assert runs[..0] == [];
      assert seq(2, _ => blob) == [blob, blob];
    }
    SteadyIff(r.parse(blob));
    assert runs[0].count > 1;
    RowsCountHiddenRuns(r, scope, runs, prev);
    RunsCountAlikeIff(r, scope, runs, prev);
  }

  lemma {:induction false} NaNShows(r: Reader, scope: AttrScope, blob: string, prev: Option<seq<Entry>>)
    requires r.parse(blob) == [Entry("a", Dbl(NaN))]
    ensures NewRunCalls(Walk(r, scope, RowByRow([blob, blob]), prev))
      > NewRunCalls(Walk(r, scope, [Run(blob, 2)], prev))
  {
    var attrs := r.parse(blob);
    assert HasNaN(attrs[0].value);
    RepeatShows(r, scope, blob, prev);
  }

  lemma {:induction false} ClashShows(r: Reader, scope: AttrScope, blob: string, prev: Option<seq<Entry>>)
    requires r.parse(blob) == [Entry("a", Int(1)), Entry("a", Int(2))]
    ensures NewRunCalls(Walk(r, scope, RowByRow([blob, blob]), prev))
      > NewRunCalls(Walk(r, scope, [Run(blob, 2)], prev))
  {
    var attrs := r.parse(blob);
    assert IsFirst(attrs, 0) && attrs[0].key == attrs[1].key && !SameValue(attrs[0].value, attrs[1].value);
    RepeatShows(r, scope, blob, prev);
  }

  /** A repeated key is harmless when it repeats its value. */
  lemma {:induction false} RepeatedKeyCanBeSteady(attrs: seq<Entry>)
    requires attrs == [Entry("a", Int(1)), Entry("a", Int(1))]
    ensures Steady(attrs)
  {
    SteadyIff(attrs);
  }
}
