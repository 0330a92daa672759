/** The series wire codec (crates/imbh-head/src/ipc.rs): series flattened to one row per sample, with
    the row each series starts at kept as text in the schema metadata. */
module SeriesCodec {
  import opened Basics
  import opened Text

  datatype Label = Label(name: string, value: string)

  /** A sample; the value is known by its bits. */
  datatype Sample = Sample(timestamp: int, bits: u64)

  datatype Series = Series(labels: seq<Label>, samples: seq<Sample>, query: u64)

  datatype Row = Row(labels: seq<Label>, sample: Sample)

  datatype Batch = Batch(rows: seq<Row>, starts: Option<string>, queries: Option<string>)

  // ----- encoding

  /** The series that have samples; the others leave no row behind. */
  function Survivors(series: seq<Series>): seq<Series> {
    if series == [] then []
    else
      var n := |series| - 1;
      Survivors(series[..n]) + if series[n].samples == [] then [] else [series[n]]
  }

  function RowsOfOne(s: Series): seq<Row> {
    seq(|s.samples|, j requires 0 <= j < |s.samples| => Row(s.labels, s.samples[j]))
  }

  function RowsOf(series: seq<Series>): seq<Row> {
    if series == [] then [] else RowsOf(series[..|series| - 1]) + RowsOfOne(series[|series| - 1])
  }

  /** Where each series starts among the rows of all. */
  function StartsOf(series: seq<Series>): seq<nat> {
    if series == [] then [] else StartsOf(series[..|series| - 1]) + [|RowsOf(series[..|series| - 1])|]
  }

  function Numerals(ns: seq<nat>): seq<string> {
    if ns == [] then [] else Numerals(ns[..|ns| - 1]) + [Show(ns[|ns| - 1], 10)]
  }

  function QueriesOf(series: seq<Series>): seq<nat> {
    if series == [] then [] else QueriesOf(series[..|series| - 1]) + [series[|series| - 1].query]
  }

  function Encode(series: seq<Series>): Batch {
    var kept := Survivors(series);
    Batch(RowsOf(kept), Some(Join(Numerals(StartsOf(kept)), ',')), Some(Join(Numerals(QueriesOf(kept)), ',')))
  }

  lemma {:induction false} MetadataSnoc(kept: seq<Series>, item: Series)
    ensures RowsOf(kept + [item]) == RowsOf(kept) + RowsOfOne(item)
    ensures Numerals(StartsOf(kept + [item])) == Numerals(StartsOf(kept)) + [Show(|RowsOf(kept)|, 10)]
    ensures Numerals(QueriesOf(kept + [item])) == Numerals(QueriesOf(kept)) + [Show(item.query, 10)]
  {
    var all := kept + [item];
    assert all[..|all| - 1] == kept;
    var starts, queries := StartsOf(all), QueriesOf(all);
    assert starts[..|starts| - 1] == StartsOf(kept) && queries[..|queries| - 1] == QueriesOf(kept);
  }

  method AppendRows(rows: seq<Row>, item: Series) returns (all: seq<Row>)
    ensures all == rows + RowsOfOne(item)
  {
    all := rows;
    for j := 0 to |item.samples|
      invariant all == rows + RowsOfOne(item)[..j]
    {
      all := all + [Row(item.labels, item.samples[j])];
    }
    assert RowsOfOne(item)[..|item.samples|] == RowsOfOne(item);
  }

  /** `series_to_batch`. */
  method SeriesToBatch(series: seq<Series>) returns (batch: Batch)
    ensures batch == Encode(series)
  {
    var rows: seq<Row>, starts: seq<string>, queries: seq<string> := [], [], [];
    ghost var kept: seq<Series> := [];
    for i := 0 to |series|
      invariant kept == Survivors(series[..i]) && rows == RowsOf(kept)
      invariant starts == Numerals(StartsOf(kept)) && queries == Numerals(QueriesOf(kept))
    {
      var item := series[i];
      assert series[..i + 1][..i] == series[..i];
      if item.samples != [] {
        MetadataSnoc(kept, item);
        kept := kept + [item];
        starts := starts + [Show(|rows|, 10)];
        queries := queries + [Show(item.query, 10)];
        rows := AppendRows(rows, item);
      }
    }
    assert series[..|series|] == series;
    batch := Batch(rows, Some(Join(starts, ',')), Some(Join(queries, ',')));
  }

  // ----- decoding

  function NonEmpty(parts: seq<string>): seq<string> {
    if parts == [] then []
    else (if parts[0] == [] then [] else [parts[0]]) + NonEmpty(parts[1..])
  }

  /** Every part must be a number. */
  function AllNumbers(parts: seq<string>): Option<seq<u64>> {
    if parts == [] then Some([])
    else match (ParseU64(parts[0], 10), AllNumbers(parts[1..]))
      case (Some(n), Some(ns)) => Some([n] + ns)
      case _ => None
  }

  /** Parts that are not numbers are dropped. */
  function AnyNumbers(parts: seq<string>): seq<u64> {
    if parts == [] then []
    else (if ParseU64(parts[0], 10).Some? then [ParseU64(parts[0], 10).value] else []) + AnyNumbers(parts[1..])
  }

  /** The series built so far and the cursor into the recorded starts. */
  datatype Progress = Progress(out: seq<Series>, next: nat)

  /** One row of `series_from_batch`. */
  function Take(p: Progress, row: Row, at: nat, starts: Option<seq<u64>>, queries: seq<u64>): Progress {
    var breaks := starts.Some? && p.next < |starts.value| && starts.value[p.next] == at;
    var next := if breaks then p.next + 1 else p.next;
    var last := |p.out| - 1;
    var continues := if starts.Some? then !breaks else p.out != [] && p.out[last].labels == row.labels;
    if p.out != [] && continues
    then Progress(p.out[last := p.out[last].(samples := p.out[last].samples + [row.sample])], next)
    else Progress(p.out + [Series(row.labels, [row.sample], if |p.out| < |queries| then queries[|p.out|] else 0)], next)
  }

  function TakeAll(rows: seq<Row>, starts: Option<seq<u64>>, queries: seq<u64>): Progress {
    if rows == [] then Progress([], 0)
    else
      var n := |rows| - 1;
      Take(TakeAll(rows[..n], starts, queries), rows[n], n, starts, queries)
  }

  function ReadQueries(b: Batch): seq<u64> {
    if b.queries.None? then [] else AnyNumbers(NonEmpty(Split(b.queries.value, ',')))
  }

  /** `series_from_batch`; `None` when the recorded offsets are not numbers. */
  function Decode(b: Batch): Option<seq<Series>> {
    if b.starts.None? then Some(TakeAll(b.rows, None, ReadQueries(b)).out)
    else match AllNumbers(NonEmpty(Split(b.starts.value, ',')))
      case None => None
      case Some(starts) => Some(TakeAll(b.rows, Some(starts), ReadQueries(b)).out)
  }

  method SeriesFromBatch(batch: Batch) returns (r: Option<seq<Series>>)
    ensures r == Decode(batch)
  {
    var starts: Option<seq<u64>> := None;
    if batch.starts.Some? {
      starts := AllNumbers(NonEmpty(Split(batch.starts.value, ',')));
      if starts.None? {
        return None;
      }
    }
    var queries := ReadQueries(batch);
    var out: seq<Series>, nextStart := [], 0;
    for row := 0 to |batch.rows|
      invariant Progress(out, nextStart) == TakeAll(batch.rows[..row], starts, queries)
    {
      assert batch.rows[..row + 1][..row] == batch.rows[..row];
      var labels, sample := batch.rows[row].labels, batch.rows[row].sample;
      var continues;
      if starts.Some? {
        var breaks := nextStart < |starts.value| && starts.value[nextStart] == row;
        if breaks {
          nextStart := nextStart + 1;
        }
        continues := !breaks;
      } else {
        continues := out != [] && out[|out| - 1].labels == labels;
      }
      if out != [] && continues {
        var last := |out| - 1;
        out := out[last := out[last].(samples := out[last].samples + [sample])];
      } else {
        out := out + [Series(labels, [sample], if |out| < |queries| then queries[|out|] else 0)];
      }
    }
    assert batch.rows[..|batch.rows|] == batch.rows;
    r := Some(out);
  }

  // ----- the metadata text

  lemma {:induction false} NumeralsAt(ns: seq<nat>)
    ensures |Numerals(ns)| == |ns|
    ensures forall i :: 0 <= i < |ns| ==> Numerals(ns)[i] == Show(ns[i], 10)
  {
    if ns != [] {
      NumeralsAt(ns[..|ns| - 1]);
    }
  }

  lemma {:induction false} NonEmptyOfNonEmpty(parts: seq<string>)
    requires forall i :: 0 <= i < |parts| ==> parts[i] != []
    ensures NonEmpty(parts) == parts
  {
    if parts != [] {
      NonEmptyOfNonEmpty(parts[1..]);
      assert parts == [parts[0]] + parts[1..];
    }
  }

  /** The parts of the joined numerals are the numerals, even when there are none. */
  lemma PartsOfJoined(ns: seq<nat>)
    ensures NonEmpty(Split(Join(Numerals(ns), ','), ',')) == Numerals(ns)
  {
    NumeralsAt(ns);
    var parts := Numerals(ns);
    if ns == [] {
      var none: seq<string> := [[]];
      assert Split([], ',') == none;
      assert none[1..] == [];
    } else {
      forall i | 0 <= i < |parts|
        ensures ',' !in parts[i]
      {
        ShowChars(ns[i], 10);
      }
      SplitOfJoin(parts, ',');
      NonEmptyOfNonEmpty(parts);
    }
  }

  lemma {:induction false} NumbersOfNumerals(parts: seq<string>, ns: seq<u64>)
    requires |parts| == |ns| && forall i :: 0 <= i < |ns| ==> parts[i] == Show(ns[i], 10)
    ensures AllNumbers(parts) == Some(ns) && AnyNumbers(parts) == ns
  {
    if ns != [] {
      ParseOfShow(ns[0], 10);
      NumbersOfNumerals(parts[1..], ns[1..]);
      assert ns == [ns[0]] + ns[1..];
    }
  }

  // ----- rows and where they come from

  lemma {:induction false} StartsAt(kept: seq<Series>, k: nat)
    requires k < |kept|
    ensures |StartsOf(kept)| == |kept| && StartsOf(kept)[k] == |RowsOf(kept[..k])|
  {
    var n := |kept| - 1;
    if n > 0 {
      StartsAt(kept[..n], if k < n then k else 0);
    }
    if k < n {
      assert kept[..n][..k] == kept[..k];
    }
  }

  lemma {:induction false} QueriesAt(kept: seq<Series>)
    ensures |QueriesOf(kept)| == |kept| && forall k :: 0 <= k < |kept| ==> QueriesOf(kept)[k] == kept[k].query
  {
    if kept != [] {
      QueriesAt(kept[..|kept| - 1]);
    }
  }

  lemma {:induction false} SurvivorsHaveSamples(series: seq<Series>)
    ensures forall k :: 0 <= k < |Survivors(series)| ==> Survivors(series)[k].samples != []
  {
    if series != [] {
      SurvivorsHaveSamples(series[..|series| - 1]);
    }
  }

  /** The first `k` series and the first `j` samples of the next one. */
  function Partial(kept: seq<Series>, k: nat, j: nat): seq<Series>
    requires k < |kept| && 0 < j <= |kept[k].samples|
  {
    kept[..k] + [kept[k].(samples := kept[k].samples[..j])]
  }

  function RowsUpTo(kept: seq<Series>, k: nat, j: nat): seq<Row>
    requires k < |kept| && j <= |kept[k].samples|
  {
    RowsOf(kept[..k]) + RowsOfOne(kept[k])[..j]
  }

  lemma RowsGrow(kept: seq<Series>, k: nat)
    requires k < |kept|
    ensures RowsUpTo(kept, k, 0) == RowsOf(kept[..k])
    ensures RowsUpTo(kept, k, |kept[k].samples|) == RowsOf(kept[..k + 1])
  {
    assert kept[..k + 1][..k] == kept[..k];
    assert RowsOfOne(kept[k])[..|kept[k].samples|] == RowsOfOne(kept[k]);
  }

  lemma RowsStep(kept: seq<Series>, k: nat, j: nat)
    requires k < |kept| && j < |kept[k].samples|
    ensures RowsUpTo(kept, k, j + 1) == RowsUpTo(kept, k, j) + [Row(kept[k].labels, kept[k].samples[j])]
  {
    var rows := RowsOfOne(kept[k]);
    assert rows[..j + 1] == rows[..j] + [rows[j]];
    ConcatAssociates(RowsOf(kept[..k]), rows[..j], [rows[j]]);
  }

  lemma {:induction false} TakeAllSnoc(rows: seq<Row>, row: Row, starts: Option<seq<u64>>, queries: seq<u64>)
    ensures TakeAll(rows + [row], starts, queries) == Take(TakeAll(rows, starts, queries), row, |rows|, starts, queries)
  {
    assert (rows + [row])[..|rows|] == rows;
  }

  /** The recorded metadata of a list of series. */
  ghost predicate Recorded(kept: seq<Series>, starts: seq<u64>, queries: seq<u64>) {
    && |starts| == |queries| == |kept|
    && (forall k :: 0 <= k < |kept| ==> starts[k] == |RowsOf(kept[..k])| && queries[k] == kept[k].query)
    && (forall k :: 0 <= k < |kept| ==> kept[k].samples != [])
  }

  lemma TakeBreak(out: seq<Series>, row: Row, at: nat, starts: seq<u64>, queries: seq<u64>)
    requires |out| < |starts| == |queries| && starts[|out|] == at
    ensures Take(Progress(out, |out|), row, at, Some(starts), queries)
      == Progress(out + [Series(row.labels, [row.sample], queries[|out|])], |out| + 1)
  {
  }

  lemma TakeContinue(out: seq<Series>, s: Series, row: Row, at: nat, next: nat, starts: seq<u64>, queries: seq<u64>)
    requires next < |starts| ==> starts[next] != at
    ensures Take(Progress(out + [s], next), row, at, Some(starts), queries)
      == Progress(out + [s.(samples := s.samples + [row.sample])], next)
  {
    var p, last := out + [s], |out|;
    assert p[last := s.(samples := s.samples + [row.sample])] == out + [s.(samples := s.samples + [row.sample])];
  }

  /** The decoder stands where series `k` is about to begin. */
  ghost predicate AtStart(kept: seq<Series>, starts: seq<u64>, queries: seq<u64>, k: nat) {
    && k < |kept| == |starts| == |queries|
    && starts[k] == |RowsOf(kept[..k])| && queries[k] == kept[k].query
    && (k + 1 < |starts| ==> starts[k + 1] == |RowsOf(kept[..k])| + |kept[k].samples|)
    && TakeAll(RowsOf(kept[..k]), Some(starts), queries) == Progress(kept[..k], k)
  }

  /** The first sample of a series breaks at the recorded row. */
  lemma {:induction false} DecodeFirst(kept: seq<Series>, starts: seq<u64>, queries: seq<u64>, k: nat)
    requires AtStart(kept, starts, queries, k) && kept[k].samples != []
    ensures TakeAll(RowsUpTo(kept, k, 1), Some(starts), queries) == Progress(Partial(kept, k, 1), k + 1)
  {
    var s, before := kept[k], RowsUpTo(kept, k, 0);
    var row := Row(s.labels, s.samples[0]);
    RowsStep(kept, k, 0);
    RowsGrow(kept, k);
    TakeAllSnoc(before, row, Some(starts), queries);
    TakeBreak(kept[..k], row, |before|, starts, queries);
    assert s.samples[..1] == [s.samples[0]];
  }

  /** Every other sample continues it. */
  lemma {:induction false} DecodeNext(kept: seq<Series>, starts: seq<u64>, queries: seq<u64>, k: nat, j: nat)
    requires AtStart(kept, starts, queries, k) && 0 < j < |kept[k].samples|
    requires TakeAll(RowsUpTo(kept, k, j), Some(starts), queries) == Progress(Partial(kept, k, j), k + 1)
    ensures TakeAll(RowsUpTo(kept, k, j + 1), Some(starts), queries) == Progress(Partial(kept, k, j + 1), k + 1)
  {
    var s, before := kept[k], RowsUpTo(kept, k, j);
    var row := Row(s.labels, s.samples[j]);
    RowsStep(kept, k, j);
    TakeAllSnoc(before, row, Some(starts), queries);
    assert |before| == |RowsOf(kept[..k])| + j;
    TakeContinue(kept[..k], s.(samples := s.samples[..j]), row, |before|, k + 1, starts, queries);
    PartialStep(kept, k, j);
  }

  lemma PartialStep(kept: seq<Series>, k: nat, j: nat)
    requires k < |kept| && 0 < j < |kept[k].samples|
    ensures var s := kept[k];
      kept[..k] + [s.(samples := s.samples[..j] + [s.samples[j]])] == Partial(kept, k, j + 1)
  {
    assert kept[k].samples[..j + 1] == kept[k].samples[..j] + [kept[k].samples[j]];
  }

  lemma {:induction false} DecodeSamples(kept: seq<Series>, starts: seq<u64>, queries: seq<u64>, k: nat, j: nat)
    requires AtStart(kept, starts, queries, k) && 0 < j <= |kept[k].samples|
    ensures TakeAll(RowsUpTo(kept, k, j), Some(starts), queries) == Progress(Partial(kept, k, j), k + 1)
  {
    if j == 1 {
      DecodeFirst(kept, starts, queries, k);
    } else {
      DecodeSamples(kept, starts, queries, k, j - 1);
      DecodeNext(kept, starts, queries, k, j - 1);
    }
  }

  lemma PartialFull(kept: seq<Series>, k: nat)
    requires k < |kept| && kept[k].samples != []
    ensures Partial(kept, k, |kept[k].samples|) == kept[..k + 1]
  {
    assert kept[k].samples[..|kept[k].samples|] == kept[k].samples;
  }

  lemma {:induction false} StartsFollow(kept: seq<Series>, starts: seq<u64>, queries: seq<u64>, k: nat)
    requires Recorded(kept, starts, queries) && k < |kept|
    requires TakeAll(RowsOf(kept[..k]), Some(starts), queries) == Progress(kept[..k], k)
    ensures AtStart(kept, starts, queries, k)
  {
    if k + 1 < |kept| {
      assert kept[..k + 1][..k] == kept[..k];
      assert starts[k + 1] == |RowsOf(kept[..k + 1])|;
    }
  }

  lemma {:induction false} DecodeSeries(kept: seq<Series>, starts: seq<u64>, queries: seq<u64>, k: nat)
    requires Recorded(kept, starts, queries) && k <= |kept|
    ensures TakeAll(RowsOf(kept[..k]), Some(starts), queries) == Progress(kept[..k], k)
  {
    if k > 0 {
      DecodeSeries(kept, starts, queries, k - 1);
      StartsFollow(kept, starts, queries, k - 1);
      DecodeSamples(kept, starts, queries, k - 1, |kept[k - 1].samples|);
      RowsGrow(kept, k - 1);
      PartialFull(kept, k - 1);
    }
  }

  lemma {:induction false} RowsOfPrefix(kept: seq<Series>, k: nat)
    requires k <= |kept|
    ensures |RowsOf(kept[..k])| <= |RowsOf(kept)|
    decreases |kept| - k
  {
    if k < |kept| {
      RowsOfPrefix(kept, k + 1);
      assert kept[..k + 1][..k] == kept[..k];
    } else {
      assert kept[..k] == kept;
    }
  }

  lemma StartsInRange(kept: seq<Series>)
    requires |RowsOf(kept)| <= U64_MAX
    ensures |StartsOf(kept)| == |kept|
    ensures forall k :: 0 <= k < |kept| ==> StartsOf(kept)[k] == |RowsOf(kept[..k])| <= U64_MAX
  {
    forall k | 0 <= k < |kept|
      ensures |StartsOf(kept)| == |kept| && StartsOf(kept)[k] == |RowsOf(kept[..k])| <= U64_MAX
    {
      StartsAt(kept, k);
      RowsOfPrefix(kept, k);
    }
  }

  lemma ReadBack(ns: seq<u64>)
    ensures AllNumbers(NonEmpty(Split(Join(Numerals(ns), ','), ','))) == Some(ns)
    ensures AnyNumbers(NonEmpty(Split(Join(Numerals(ns), ','), ','))) == ns
  {
    NumeralsAt(ns);
    PartsOfJoined(ns);
    NumbersOfNumerals(Numerals(ns), ns);
  }

  /** The codec round trip: exactly the series that have samples come back, in order, with labels,
      samples and query, even when neighbours carry identical labels. */
  lemma DecodeOfEncode(series: seq<Series>)
    requires |RowsOf(Survivors(series))| <= U64_MAX
    ensures Decode(Encode(series)) == Some(Survivors(series))
  {
    var kept := Survivors(series);
    StartsInRange(kept);
    QueriesAt(kept);
    SurvivorsHaveSamples(series);
    var starts: seq<u64>, queries: seq<u64> := StartsOf(kept), QueriesOf(kept);
    ReadBack(starts);
    ReadBack(queries);
    DecodeSeries(kept, starts, queries, |kept|);
    assert kept[..|kept|] == kept;
  }

  // ----- a batch without metadata, as an older daemon writes it

  /** Runs of neighbours with equal labels become one series. */
  function Fuse(series: seq<Series>): seq<Series> {
    if series == [] then []
    else
      var n := |series| - 1;
      var before, s := Fuse(series[..n]), series[n].(query := 0);
      var m := |before| - 1;
      if before != [] && before[m].labels == s.labels
      then before[m := before[m].(samples := before[m].samples + s.samples)]
      else before + [s]
  }

  lemma TakeUnmarked(out: seq<Series>, next: nat, row: Row, at: nat)
    ensures Take(Progress(out, next), row, at, None, []) ==
      var m := |out| - 1;
      if out != [] && out[m].labels == row.labels
      then Progress(out[m := out[m].(samples := out[m].samples + [row.sample])], next)
      else Progress(out + [Series(row.labels, [row.sample], 0)], next)
  {
  }

  /** What fusing the first `j` samples of one more series onto `before` gives. */
  function Onto(before: seq<Series>, s: Series, j: nat): seq<Series>
    requires 0 < j <= |s.samples|
  {
    var m := |before| - 1;
    if before != [] && before[m].labels == s.labels
    then before[m := before[m].(samples := before[m].samples + s.samples[..j])]
    else before + [Series(s.labels, s.samples[..j], 0)]
  }

  lemma OntoGrows(before: seq<Series>, s: Series, j: nat)
    requires 0 < j < |s.samples|
    ensures var out := Onto(before, s, j); var m := |out| - 1;
      && out != [] && out[m].labels == s.labels
      && out[m := out[m].(samples := out[m].samples + [s.samples[j]])] == Onto(before, s, j + 1)
  {
    assert s.samples[..j + 1] == s.samples[..j] + [s.samples[j]];
    var m := |before| - 1;
    if before != [] && before[m].labels == s.labels {
      ConcatAssociates(before[m].samples, s.samples[..j], [s.samples[j]]);
    }
  }

  /** Before series `k`, the first ones are read as their fusion. */
  ghost predicate FusedTo(kept: seq<Series>, k: nat) {
    k < |kept| && TakeAll(RowsOf(kept[..k]), None, []) == Progress(Fuse(kept[..k]), 0)
  }

  lemma {:induction false} FuseFirst(kept: seq<Series>, k: nat)
    requires FusedTo(kept, k) && kept[k].samples != []
    ensures TakeAll(RowsUpTo(kept, k, 1), None, []) == Progress(Onto(Fuse(kept[..k]), kept[k], 1), 0)
  {
    var s, before := kept[k], RowsUpTo(kept, k, 0);
    var row := Row(s.labels, s.samples[0]);
    RowsStep(kept, k, 0);
    RowsGrow(kept, k);
    TakeAllSnoc(before, row, None, []);
    TakeUnmarked(Fuse(kept[..k]), 0, row, |before|);
    assert s.samples[..1] == [s.samples[0]];
  }

  lemma {:induction false} FuseNext(kept: seq<Series>, k: nat, j: nat)
    requires FusedTo(kept, k) && 0 < j < |kept[k].samples|
    requires TakeAll(RowsUpTo(kept, k, j), None, []) == Progress(Onto(Fuse(kept[..k]), kept[k], j), 0)
    ensures TakeAll(RowsUpTo(kept, k, j + 1), None, []) == Progress(Onto(Fuse(kept[..k]), kept[k], j + 1), 0)
  {
    var s, before := kept[k], RowsUpTo(kept, k, j);
    var row := Row(s.labels, s.samples[j]);
    RowsStep(kept, k, j);
    TakeAllSnoc(before, row, None, []);
    OntoGrows(Fuse(kept[..k]), s, j);
    TakeUnmarked(Onto(Fuse(kept[..k]), s, j), 0, row, |before|);
  }

  lemma {:induction false} FuseSamples(kept: seq<Series>, k: nat, j: nat)
    requires FusedTo(kept, k) && 0 < j <= |kept[k].samples|
    ensures TakeAll(RowsUpTo(kept, k, j), None, []) == Progress(Onto(Fuse(kept[..k]), kept[k], j), 0)
  {
    if j == 1 {
      FuseFirst(kept, k);
    } else {
      FuseSamples(kept, k, j - 1);
      FuseNext(kept, k, j - 1);
    }
  }

  lemma {:induction false} FuseSeries(kept: seq<Series>, k: nat)
    requires k <= |kept| && forall i :: 0 <= i < |kept| ==> kept[i].samples != []
    ensures TakeAll(RowsOf(kept[..k]), None, []) == Progress(Fuse(kept[..k]), 0)
  {
    if k > 0 {
      var s := kept[k - 1];
      FuseSeries(kept, k - 1);
      FuseSamples(kept, k - 1, |s.samples|);
      RowsGrow(kept, k - 1);
      assert s.samples[..|s.samples|] == s.samples;
      assert kept[..k][..k - 1] == kept[..k - 1];
    }
  }

  function Stripped(b: Batch): Batch {
    b.(starts := None, queries := None)
  }

  /** With the metadata stripped, neighbours that share a label list come back fused. */
  lemma DecodeOfStripped(series: seq<Series>)
    ensures Decode(Stripped(Encode(series))) == Some(Fuse(Survivors(series)))
  {
    var kept := Survivors(series);
    SurvivorsHaveSamples(series);
    FuseSeries(kept, |kept|);
    assert kept[..|kept|] == kept;
  }

  ghost predicate NoTwins(kept: seq<Series>) {
    forall i :: 0 <= i < |kept| - 1 ==> kept[i].labels != kept[i + 1].labels
  }

  function Unattributed(kept: seq<Series>): seq<Series> {
    if kept == [] then [] else Unattributed(kept[..|kept| - 1]) + [kept[|kept| - 1].(query := 0)]
  }

  lemma {:induction false} FuseShape(kept: seq<Series>)
    ensures |Fuse(kept)| <= |kept| == |Unattributed(kept)|
    ensures kept != [] ==> Fuse(kept) != [] && Fuse(kept)[|Fuse(kept)| - 1].labels == kept[|kept| - 1].labels
    ensures Fuse(kept) == Unattributed(kept) <==> NoTwins(kept)
    ensures |Fuse(kept)| == |kept| <==> NoTwins(kept)
  {
    if kept != [] {
      var n := |kept| - 1;
      FuseShape(kept[..n]);
      assert kept == kept[..n] + [kept[n]];
      assert NoTwins(kept) <==> NoTwins(kept[..n]) && (n > 0 ==> kept[n - 1].labels != kept[n].labels);
    }
  }

  /** Labels and samples survive losing the metadata exactly when no two neighbouring series that
      have samples share a label list; the query is then reported as 0. */
  lemma StrippedRoundTripIff(series: seq<Series>)
    ensures Decode(Stripped(Encode(series))) == Some(Unattributed(Survivors(series))) <==> NoTwins(Survivors(series))
  {
    DecodeOfStripped(series);
    FuseShape(Survivors(series));
  }
}
