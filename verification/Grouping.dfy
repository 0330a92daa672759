/** Rows into series (crates/imbh-lgtm/src/source.rs): grouping by label set under a series cap. */
module Grouping {
  import opened Basics
  import opened Values
  import opened Sorting
  import opened Labels
  import opened Samples
  import Text

  /** One metric point row; `attributes` is its parsed JSON column, if it parses. */
  datatype Row = Row(service: Option<string>, metric: Option<string>, attributes: Option<AnyValue>,
                     temporality: Option<string>, monotonic: Option<bool>, sample: Sample)

  datatype Purpose = InstantSelector | CumulativeCounterRate | CumulativeHistogramRate

  datatype Request = Request(purpose: Purpose, maxSeries: nat)

  datatype Error = LimitExceeded | Incompatible

  datatype Series = Series(labels: LabelSet, samples: seq<Sample>)

  /** The string-valued fields. */
  function StringFields(fields: seq<Entry>): seq<(string, string)> {
    if fields == [] then []
    else (if fields[0].value.Str? then [(fields[0].key, fields[0].value.text)] else []) + StringFields(fields[1..])
  }

  function Pairs(row: Row): seq<(string, string)> {
    (if row.service.Some? then [("service", row.service.value)] else [])
    + (if row.metric.Some? then [("__name__", row.metric.value)] else [])
    + (if row.attributes.Some? && row.attributes.value.Map? then StringFields(row.attributes.value.entries) else [])
  }

  /** `metric_labels_from_batch`. */
  function LabelsOf(row: Row): LabelSet { New(Pairs(row)) }

  /** The last string value under a name. */
  function LastString(fields: seq<Entry>, name: string): Option<string> {
    if fields == [] then None
    else
      var n := |fields| - 1;
      if fields[n].key == name && fields[n].value.Str? then Some(fields[n].value.text)
      else LastString(fields[..n], name)
  }

  lemma {:induction false} StringFieldsSnoc(fields: seq<Entry>, e: Entry)
    ensures StringFields(fields + [e]) == StringFields(fields) + if e.value.Str? then [(e.key, e.value.text)] else []
    decreases |fields|
  {
    if fields == [] {
      assert [] + [e] == [e] && [e][1..] == [];
    } else {
      assert (fields + [e])[1..] == fields[1..] + [e];
      StringFieldsSnoc(fields[1..], e);
      ConcatAssociates(if fields[0].value.Str? then [(fields[0].key, fields[0].value.text)] else [],
        StringFields(fields[1..]), if e.value.Str? then [(e.key, e.value.text)] else []);
    }
  }

  lemma {:induction false} LastOfStrings(fields: seq<Entry>, name: string)
    ensures LastOf(StringFields(fields), name) == LastString(fields, name)
    decreases |fields|
  {
    if fields != [] {
      var before, e := fields[..|fields| - 1], fields[|fields| - 1];
      assert fields == before + [e];
      LastOfStrings(before, name);
      StringFieldsSnoc(before, e);
      if e.value.Str? {
        assert (StringFields(before) + [(e.key, e.value.text)])[..|StringFields(before)|] == StringFields(before);
      } else {
        assert StringFields(before) + [] == StringFields(before);
      }
    }
  }

  /** The labels of a row: its string attributes by name, the last one of a name winning, and under them the
      metric name and the service. */
  lemma {:induction false} RowLabels(row: Row, name: string)
    ensures var attribute := if row.attributes.Some? && row.attributes.value.Map?
                             then LastString(row.attributes.value.entries, name) else None;
      Get(LabelsOf(row), name) ==
        if attribute.Some? then attribute
        else if name == "__name__" then row.metric
        else if name == "service" then row.service
        else None
  {
    var service := if row.service.Some? then [("service", row.service.value)] else [];
    var metric := if row.metric.Some? then [("__name__", row.metric.value)] else [];
    var strings := if row.attributes.Some? && row.attributes.value.Map?
                   then StringFields(row.attributes.value.entries) else [];
    NewIsLastWins(Pairs(row));
    LastOfConcat(service + metric, strings, name);
    LastOfConcat(service, metric, name);
    if row.attributes.Some? && row.attributes.value.Map? {
      LastOfStrings(row.attributes.value.entries, name);
    }
    assert |"service"| != |"__name__"|;
  }

  predicate IsCounter(row: Row) {
    && row.temporality.Some? && Text.Lower(row.temporality.value) == "cumulative"
    && row.monotonic == Some(true)
  }

  // ----- what the result must be

  ghost function Distinct(rows: seq<Row>): set<LabelSet> { set r | r in rows :: LabelsOf(r) }

  function SamplesOf(rows: seq<Row>, labels: LabelSet): seq<Sample> {
    if rows == [] then []
    else
      var n := |rows| - 1;
      var before := SamplesOf(rows[..n], labels);
      if LabelsOf(rows[n]) == labels then before + [rows[n].sample] else before
  }

  function Settled(d: Duplicates, xs: seq<Sample>): seq<Sample> {
    if CollapsesAtRead(d) then Collapse(xs) else Sort(TimeLe, xs)
  }

  predicate SameButForCase(a: string, b: string) {
    |a| == |b| && forall i :: 0 <= i < |a| ==> Text.LowerChar(a[i]) == Text.LowerChar(b[i])
  }

  /** A counter rate needs a cumulative, monotonic sum. */
  predicate Serves(req: Request, row: Row) {
    req.purpose == CumulativeCounterRate ==>
      && row.monotonic.Some? && row.monotonic.value
      && row.temporality.Some? && SameButForCase(row.temporality.value, "cumulative")
  }

  lemma {:induction false} ServesIff(req: Request, row: Row)
    ensures Serves(req, row) <==> !(req.purpose == CumulativeCounterRate && !IsCounter(row))
  {
    if row.temporality.Some? {
      var t, word := row.temporality.value, "cumulative";
      Text.LowerOfLower(word);
      assert forall i :: 0 <= i < |word| ==> Text.LowerChar(word[i]) == Text.Lower(word)[i];
      assert |Text.Lower(t)| == |t| && forall i :: 0 <= i < |t| ==> Text.Lower(t)[i] == Text.LowerChar(t[i]);
    }
  }

  ghost predicate Admissible(req: Request, rows: seq<Row>) {
    |Distinct(rows)| <= req.maxSeries && forall i :: 0 <= i < |rows| ==> Serves(req, rows[i])
  }

  /** One series per distinct label set, in label order, holding exactly its samples. */
  ghost predicate Grouped(rows: seq<Row>, d: Duplicates, out: seq<Series>) {
    && (forall i, j :: 0 <= i < j < |out| ==> LabelsLt(out[i].labels, out[j].labels))
    && (forall l :: l in Distinct(rows) <==> exists i :: 0 <= i < |out| && out[i].labels == l)
    && (forall i :: 0 <= i < |out| ==> out[i].samples == Settled(d, SamplesOf(rows, out[i].labels)))
  }

  /** Row `n` is the first one refused, with this error. */
  ghost predicate FailsAt(req: Request, rows: seq<Row>, n: nat, e: Error) {
    && n < |rows| && Admissible(req, rows[..n])
    && if !Serves(req, rows[n]) then e == Incompatible
       else e == LimitExceeded && |Distinct(rows[..n + 1])| > req.maxSeries
  }

  // ----- the loops

  /** The map built so far holds exactly the rows seen so far. */
  ghost predicate Holds(m: map<LabelSet, seq<Sample>>, rows: seq<Row>) {
    && m.Keys == Distinct(rows)
    && forall l :: l in m ==> m[l] == SamplesOf(rows, l)
  }

  lemma {:induction false} DistinctSnoc(rows: seq<Row>, row: Row)
    ensures Distinct(rows + [row]) == Distinct(rows) + {LabelsOf(row)}
  {
  }

  lemma {:induction false} SamplesSnoc(rows: seq<Row>, row: Row, labels: LabelSet)
    ensures LabelsOf(row) == labels ==> SamplesOf(rows + [row], labels) == SamplesOf(rows, labels) + [row.sample]
    ensures LabelsOf(row) != labels ==> SamplesOf(rows + [row], labels) == SamplesOf(rows, labels)
  {
    assert (rows + [row])[..|rows|] == rows;
  }

  lemma {:induction false} AbsentHasNone(rows: seq<Row>, labels: LabelSet)
    requires labels !in Distinct(rows)
    ensures SamplesOf(rows, labels) == []
  {
    if rows != [] {
      var n := |rows| - 1;
      assert rows == rows[..n] + [rows[n]];
      DistinctSnoc(rows[..n], rows[n]);
      AbsentHasNone(rows[..n], labels);
    }
  }

  /** `entry(labels).or_default().push(sample)`. */
  function Push(m: map<LabelSet, seq<Sample>>, row: Row): map<LabelSet, seq<Sample>> {
    var l := LabelsOf(row);
    m[l := (if l in m then m[l] else []) + [row.sample]]
  }

  lemma {:induction false} PushHolds(m: map<LabelSet, seq<Sample>>, rows: seq<Row>, row: Row)
    requires Holds(m, rows)
    ensures Holds(Push(m, row), rows + [row])
  {
    var l, next := LabelsOf(row), Push(m, row);
    DistinctSnoc(rows, row);
    assert next.Keys == m.Keys + {l};
    forall q | q in next
      ensures next[q] == SamplesOf(rows + [row], q)
    {
      SamplesSnoc(rows, row, q);
      if q !in m {
        AbsentHasNone(rows, q);
      }
    }
  }

  /** Whether one more row fits, as the map built so far decides it. */
  lemma {:induction false} RowFits(m: map<LabelSet, seq<Sample>>, row: Row, req: Request, done: seq<Row>)
    requires Holds(m, done) && Admissible(req, done)
    ensures !Serves(req, row) ==> FailsAt(req, done + [row], |done|, Incompatible)
    ensures Serves(req, row) && LabelsOf(row) !in m && |m| >= req.maxSeries ==>
      FailsAt(req, done + [row], |done|, LimitExceeded)
    ensures Serves(req, row) && (LabelsOf(row) in m || |m| < req.maxSeries) ==> Admissible(req, done + [row])
  {
    var all := done + [row];
    assert all[..|done|] == done && all[..|done| + 1] == all;
    DistinctCount(m, row, done);
    if Serves(req, row) {
      assert forall i :: 0 <= i < |all| ==> Serves(req, all[i]);
    }
  }

  lemma {:induction false} DistinctCount(m: map<LabelSet, seq<Sample>>, row: Row, done: seq<Row>)
    requires Holds(m, done)
    ensures |Distinct(done + [row])| == if LabelsOf(row) in m then |m| else |m| + 1
  {
    DistinctSnoc(done, row);
    assert |m| == |m.Keys|;
    if LabelsOf(row) in m {
      assert Distinct(done + [row]) == m.Keys;
    }
  }

  /** One row; `done` are the rows before it. */
  method AddRow(m0: map<LabelSet, seq<Sample>>, row: Row, req: Request, ghost done: seq<Row>)
    returns (m: map<LabelSet, seq<Sample>>, failed: Option<Error>)
    requires Holds(m0, done) && Admissible(req, done)
    ensures failed.None? ==> Holds(m, done + [row]) && Admissible(req, done + [row])
    ensures failed.Some? ==> FailsAt(req, done + [row], |done|, failed.value)
  {
    m, failed := m0, None;
    if req.purpose == CumulativeCounterRate && !IsCounter(row) {
      failed := Some(Incompatible);
    } else if LabelsOf(row) !in m && |m| >= req.maxSeries {
      failed := Some(LimitExceeded);
    } else {
      PushHolds(m, done, row);
      m := Push(m, row);
    }
    ServesIff(req, row);
    RowFits(m0, row, req, done);
  }

  lemma {:induction false} FailsInPrefix(req: Request, rows: seq<Row>, more: seq<Row>, n: nat, e: Error)
    requires FailsAt(req, rows, n, e)
    ensures FailsAt(req, rows + more, n, e)
  {
    assert (rows + more)[..n] == rows[..n] && (rows + more)[..n + 1] == rows[..n + 1];
  }

  function Flatten(batches: seq<seq<Row>>): seq<Row> {
    if batches == [] then [] else Flatten(batches[..|batches| - 1]) + batches[|batches| - 1]
  }

  ghost predicate Fails(req: Request, rows: seq<Row>, e: Error) {
    exists n: nat :: FailsAt(req, rows, n, e)
  }

  /** The rows of one batch; `done` are the rows of the batches before it. */
  method AddBatch(m0: map<LabelSet, seq<Sample>>, rows: seq<Row>, req: Request, ghost done: seq<Row>)
    returns (m: map<LabelSet, seq<Sample>>, failed: Option<Error>)
    requires Holds(m0, done) && Admissible(req, done)
    ensures failed.None? ==> Holds(m, done + rows) && Admissible(req, done + rows)
    ensures failed.Some? ==> Fails(req, done + rows, failed.value)
  {
    m, failed := m0, None;
    assert done + rows[..0] == done;
    for i := 0 to |rows|
      invariant failed == None && Holds(m, done + rows[..i]) && Admissible(req, done + rows[..i])
    {
      ghost var seen := done + rows[..i];
      m, failed := AddRow(m, rows[i], req, seen);
      assert done + rows[..i + 1] == seen + [rows[i]];
      if failed.Some? {
        FailsInPrefix(req, done + rows[..i + 1], rows[i + 1..], |seen|, failed.value);
        assert done + rows[..i + 1] + rows[i + 1..] == done + rows;
        return;
      }
    }
    assert rows[..|rows|] == rows;
  }

  lemma {:induction false} FlattenSplits(batches: seq<seq<Row>>, k: nat)
    requires k <= |batches|
    ensures Flatten(batches) == Flatten(batches[..k]) + Flatten(batches[k..])
    decreases |batches|
  {
    var n := |batches| - 1;
    if k == |batches| {
      assert batches[..k] == batches;
    } else {
      FlattenSplits(batches[..n], k);
      assert batches[..n][..k] == batches[..k] && batches[..n][k..] == batches[k..][..n - k];
      ConcatAssociates(Flatten(batches[..k]), Flatten(batches[k..][..n - k]), batches[n]);
    }
  }

  /** `scalar_series`. The rows are read as one list, however they are split into batches. It
      succeeds exactly when every row serves the request and the cap holds all label sets. */
  method ScalarSeries(batches: seq<seq<Row>>, req: Request, d: Duplicates) returns (r: Result<seq<Series>, Error>)
    ensures r.Ok? ==> Admissible(req, Flatten(batches)) && Grouped(Flatten(batches), d, r.value)
    ensures r.Err? ==> Fails(req, Flatten(batches), r.error)
  {
    var byLabels: map<LabelSet, seq<Sample>> := map[];
    for b := 0 to |batches|
      invariant Holds(byLabels, Flatten(batches[..b])) && Admissible(req, Flatten(batches[..b]))
    {
      var failed;
      byLabels, failed := AddBatch(byLabels, batches[b], req, Flatten(batches[..b]));
      assert batches[..b + 1][..b] == batches[..b];
      if failed.Some? {
        ghost var n: nat :| FailsAt(req, Flatten(batches[..b + 1]), n, failed.value);
        FailsInPrefix(req, Flatten(batches[..b + 1]), Flatten(batches[b + 1..]), n, failed.value);
        FlattenSplits(batches, b + 1);
        return Err(failed.value);
      }
    }
    assert batches[..|batches|] == batches;
    var out := Finish(byLabels, d, Flatten(batches));
    r := Ok(out);
  }

  /** The series listed so far and the label sets still to come. */
  ghost predicate Listed(m: map<LabelSet, seq<Sample>>, d: Duplicates, rest: set<LabelSet>, out: seq<Series>) {
    && rest <= m.Keys
    && (forall i, j :: 0 <= i < j < |out| ==> LabelsLt(out[i].labels, out[j].labels))
    && (forall i, l :: 0 <= i < |out| && l in rest ==> LabelsLt(out[i].labels, l))
    && (forall l :: l in m && l !in rest ==> exists i :: 0 <= i < |out| && out[i].labels == l)
    && (forall i :: 0 <= i < |out| ==> out[i].labels in m && out[i].samples == Settled(d, m[out[i].labels]))
  }

  lemma {:induction false} ListNext(m: map<LabelSet, seq<Sample>>, d: Duplicates, rest: set<LabelSet>,
      out: seq<Series>, l: LabelSet)
    requires Listed(m, d, rest, out) && l in rest && forall x :: x in rest ==> LabelsLe(l, x)
    ensures Listed(m, d, rest - {l}, out + [Series(l, Settled(d, m[l]))])
  {
    var next, left := out + [Series(l, Settled(d, m[l]))], rest - {l};
    assert next[|out|].labels == l;
    forall i, j | 0 <= i < j < |next|
      ensures LabelsLt(next[i].labels, next[j].labels)
    {
      assert next[i] == out[i];
    }
    forall q | q in m && q !in left
      ensures exists i :: 0 <= i < |next| && next[i].labels == q
    {
      if q != l {
        var i :| 0 <= i < |out| && out[i].labels == q;
        assert next[i].labels == q;
      }
    }
  }

  /** The map in key order, each series settled by the duplicate policy. */
  method Finish(m: map<LabelSet, seq<Sample>>, d: Duplicates, ghost rows: seq<Row>) returns (out: seq<Series>)
    requires Holds(m, rows)
    ensures Grouped(rows, d, out)
  {
    var rest := m.Keys;
    out := [];
    while rest != {}
      invariant Listed(m, d, rest, out)
      decreases |rest|
    {
      ghost var least := LeastExists(rest);
      var l :| l in rest && forall x :: x in rest ==> LabelsLe(l, x);
      ListNext(m, d, rest, out, l);
      var samples := Settle(d, m[l]);
      out := out + [Series(l, samples)];
      rest := rest - {l};
    }
    AllListed(m, d, out, rows);
  }

  method Settle(d: Duplicates, samples: seq<Sample>) returns (out: seq<Sample>)
    ensures out == Settled(d, samples)
  {
    if CollapsesAtRead(d) {
      var dropped;
      out, dropped := CollapseDuplicates(samples);
    } else {
      out := Sort(TimeLe, samples);
    }
  }

  lemma {:induction false} AllListed(m: map<LabelSet, seq<Sample>>, d: Duplicates, out: seq<Series>, rows: seq<Row>)
    requires Holds(m, rows) && Listed(m, d, {}, out)
    ensures Grouped(rows, d, out)
  {
    forall l
      ensures l in Distinct(rows) <==> exists i :: 0 <= i < |out| && out[i].labels == l
    {
      assert l in Distinct(rows) <==> l in m;
    }
  }

  // ----- what follows for every request

  lemma {:induction false} DistinctOfPrefix(rows: seq<Row>, n: nat)
    requires n <= |rows|
    ensures |Distinct(rows[..n])| <= |Distinct(rows)|
  {
    SubsetSize(Distinct(rows[..n]), Distinct(rows));
  }

  /** Success is decided by the rows alone: a call that fails has rows that do not fit. */
  lemma {:induction false} FailureIsReal(req: Request, rows: seq<Row>, e: Error)
    requires Fails(req, rows, e)
    ensures !Admissible(req, rows)
    ensures req.purpose.InstantSelector? ==> e == LimitExceeded && |Distinct(rows)| > req.maxSeries
  {
    var n: nat :| FailsAt(req, rows, n, e);
    DistinctOfPrefix(rows, n + 1);
  }

  /** At most one error is possible. */
  lemma {:induction false} FailureIsUnique(req: Request, rows: seq<Row>, e: Error, f: Error)
    requires Fails(req, rows, e) && Fails(req, rows, f)
    ensures e == f
  {
    var n: nat :| FailsAt(req, rows, n, e);
    var m: nat :| FailsAt(req, rows, m, f);
    if n < m {
      LaterIsNotFirst(req, rows, n, m, e);
    } else if m < n {
      LaterIsNotFirst(req, rows, m, n, f);
    }
  }

  lemma {:induction false} LaterIsNotFirst(req: Request, rows: seq<Row>, n: nat, m: nat, e: Error)
    requires FailsAt(req, rows, n, e) && n < m <= |rows|
    ensures !Admissible(req, rows[..m])
  {
    assert rows[..m][..n] == rows[..n] && rows[..m][..n + 1] == rows[..n + 1] && rows[..m][n] == rows[n];
    assert FailsAt(req, rows[..m], n, e);
    FailureIsReal(req, rows[..m], e);
  }

  ghost predicate Increasing(ls: seq<LabelSet>) {
    forall i, j :: 0 <= i < j < |ls| ==> LabelsLt(ls[i], ls[j])
  }

  lemma {:induction false} IncreasingIsUnique(a: seq<LabelSet>, b: seq<LabelSet>)
    requires Increasing(a) && Increasing(b) && forall l :: l in a <==> l in b
    ensures a == b
  {
    forall x, y | LabelsLt(x, y)
      ensures !LabelsLt(y, x)
    {
      LabelsLeTotal(x, y);
    }
    StrictIsUnique(LabelsLt, a, b);
  }

  function LabelLists(out: seq<Series>): seq<LabelSet> {
    seq(|out|, i requires 0 <= i < |out| => out[i].labels)
  }

  lemma {:induction false} GroupedLabels(rows: seq<Row>, d: Duplicates, out: seq<Series>)
    requires Grouped(rows, d, out)
    ensures Increasing(LabelLists(out)) && forall l :: l in LabelLists(out) <==> l in Distinct(rows)
  {
    var ls := LabelLists(out);
    forall l
      ensures l in ls <==> l in Distinct(rows)
    {
      if l in Distinct(rows) {
        var i :| 0 <= i < |out| && out[i].labels == l;
        assert ls[i] == l;
      }
    }
  }

  /** Every series holds the same samples in the same order in both row lists once settled. */
  ghost predicate SameSeries(d: Duplicates, a: seq<Row>, b: seq<Row>) {
    && Distinct(a) == Distinct(b)
    && forall l :: l in Distinct(a) ==> Settled(d, SamplesOf(a, l)) == Settled(d, SamplesOf(b, l))
  }

  /** The result is determined by the label sets and the settled samples under each. */
  lemma {:induction false} GroupedIsUnique(a: seq<Row>, b: seq<Row>, d: Duplicates, x: seq<Series>, y: seq<Series>)
    requires Grouped(a, d, x) && Grouped(b, d, y) && SameSeries(d, a, b)
    ensures x == y
  {
    GroupedLabels(a, d, x);
    GroupedLabels(b, d, y);
    var ls := LabelLists(x);
    IncreasingIsUnique(ls, LabelLists(y));
    forall i | 0 <= i < |x|
      ensures x[i] == y[i]
    {
      assert ls[i] == x[i].labels == y[i].labels;
      assert ls[i] in ls;
    }
  }

  // ----- scan order

  lemma {:induction false} SamplesOfConcat(a: seq<Row>, b: seq<Row>, l: LabelSet)
    ensures SamplesOf(a + b, l) == SamplesOf(a, l) + SamplesOf(b, l)
    decreases |b|
  {
    if b == [] {
      assert a + b == a;
    } else {
      var rest, x := b[..|b| - 1], b[|b| - 1];
      SamplesOfConcat(a, rest, l);
      ConcatAssociates(a, rest, [x]);
      assert b == rest + [x];
      OneMoreRow(a, rest, x, l);
    }
  }

  lemma {:induction false} OneMoreRow(a: seq<Row>, rest: seq<Row>, x: Row, l: LabelSet)
    requires SamplesOf(a + rest, l) == SamplesOf(a, l) + SamplesOf(rest, l)
    ensures SamplesOf(a + rest + [x], l) == SamplesOf(a, l) + SamplesOf(rest + [x], l)
  {
    SamplesSnoc(a + rest, x, l);
    SamplesSnoc(rest, x, l);
    if LabelsOf(x) == l {
      ConcatAssociates(SamplesOf(a, l), SamplesOf(rest, l), [x.sample]);
    }
  }

  lemma {:induction false} SamplesOfMiddle(a: seq<Row>, x: Row, b: seq<Row>, l: LabelSet)
    ensures multiset(SamplesOf(a + [x] + b, l)) == multiset(SamplesOf(a + b, l)) + multiset(SamplesOf([x], l))
  {
    SamplesOfConcat(a + [x], b, l);
    SamplesOfConcat(a, [x], l);
    SamplesOfConcat(a, b, l);
  }

  lemma {:induction false} SamplesOfPermuted(a: seq<Row>, b: seq<Row>, l: LabelSet)
    requires multiset(a) == multiset(b)
    ensures multiset(SamplesOf(a, l)) == multiset(SamplesOf(b, l))
  {
    SameMembers(a, b);
    if a == [] {
      assert b == [];
    } else {
      var x := a[0];
      assert x in b;
      var j :| 0 <= j < |b| && b[j] == x;
      var before, after := b[..j], b[j + 1..];
      assert b == before + [x] + after;
      TakenOut(a, before, x, after);
      SamplesOfPermuted(a[1..], before + after, l);
      SamplesOfMiddle(before, x, after, l);
      SamplesOfMiddle([], x, a[1..], l);
      assert [] + a[1..] == a[1..] && a == [] + [x] + a[1..];
    }
  }

  lemma {:induction false} TakenOut(a: seq<Row>, before: seq<Row>, x: Row, after: seq<Row>)
    requires a != [] && a[0] == x && multiset(a) == multiset(before + [x] + after)
    ensures multiset(a[1..]) == multiset(before + after)
  {
    WithoutFirst(a);
    assert multiset(before + [x] + after) == multiset(before + after) + multiset{x};
  }

  lemma {:induction false} DistinctOfPermuted(a: seq<Row>, b: seq<Row>)
    requires multiset(a) == multiset(b)
    ensures Distinct(a) == Distinct(b)
  {
    SameMembers(a, b);
  }

  /** Whether an instant-selector request fits its series cap does not depend on the row order. */
  lemma {:induction false} LimitIgnoresOrder(req: Request, a: seq<Row>, b: seq<Row>)
    requires multiset(a) == multiset(b)
    ensures Admissible(req, a) <==> Admissible(req, b)
  {
    DistinctOfPermuted(a, b);
    SameMembers(a, b);
    forall r
      ensures r in a <==> r in b
    {
    }
    assert (forall i :: 0 <= i < |a| ==> Serves(req, a[i])) <==> (forall r :: r in a ==> Serves(req, r));
    assert (forall i :: 0 <= i < |b| ==> Serves(req, b[i])) <==> (forall r :: r in b ==> Serves(req, r));
  }

  /** Every series agrees with itself at each of its times. */
  ghost predicate AllAgree(rows: seq<Row>) {
    forall l :: l in Distinct(rows) ==> Agreeing(SamplesOf(rows, l))
  }

  /** Reading the same rows in another order gives the same series list: always when duplicates
      collapse, and under the erroring policies when same-time samples of a series are identical. */
  lemma {:induction false} ScanOrderIsInvisible(a: seq<Row>, b: seq<Row>, d: Duplicates, x: seq<Series>, y: seq<Series>)
    requires multiset(a) == multiset(b) && Grouped(a, d, x) && Grouped(b, d, y)
    requires CollapsesAtRead(d) || AllAgree(a)
    ensures x == y
  {
    DistinctOfPermuted(a, b);
    forall l | l in Distinct(a)
      ensures Settled(d, SamplesOf(a, l)) == Settled(d, SamplesOf(b, l))
    {
      SamplesOfPermuted(a, b, l);
      if CollapsesAtRead(d) {
        CollapseIgnoresOrder(SamplesOf(a, l), SamplesOf(b, l));
      } else {
        AgreeingSortsAlike(SamplesOf(a, l), SamplesOf(b, l));
      }
    }
    GroupedIsUnique(a, b, d, x, y);
  }

  /** Under the erroring policies each series is in time order and keeps the row order of equal times. */
  lemma {:induction false} StrictSeriesAreStable(rows: seq<Row>, d: Duplicates, out: seq<Series>, i: nat, t: int)
    requires Grouped(rows, d, out) && !CollapsesAtRead(d) && i < |out|
    ensures Sorted(TimeLe, out[i].samples)
    ensures multiset(out[i].samples) == multiset(SamplesOf(rows, out[i].labels))
    ensures Filter(AtTime(t), out[i].samples) == Filter(AtTime(t), SamplesOf(rows, out[i].labels))
  {
    var xs := SamplesOf(rows, out[i].labels);
    SortSorted(TimeLe, xs);
    SortKeepsElements(TimeLe, xs);
    SortStable(TimeLe, AtTime(t), xs);
  }
}
