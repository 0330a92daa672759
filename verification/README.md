# IMBH, modelled in Dafny

IMBH is an embedded store for OpenTelemetry data. This project models the parts of it whose
correctness is not visible from one function body, in Dafny 4.11, and proves what they are for.

| files | component |
|---|---|
| `Sketches`, `Accumulator`, `Feed`, `Exactness`, `Ladder`, `Postings` | attribute statistics: the bottom-k sketch, the accumulator nesting two of them, and why both are exact |
| `Scans`, `Coalescing`, `RunCounts`, `KeyCounts`, `Analysis` | scanning attribute columns by runs, and the sort-and-feed loop above it |
| `Values`, `Base64`, `Json`, `Grammar`, `Canonical`, `Spelling`, `Reordering`, `Lookup` | canonical JSON: printer, reader, normal form, single-key lookup |
| `Histograms`, `Quantiles` | the two quantile estimators |
| `SeriesCodec`, `FlushPolicy`, `Text` | the series wire codec and the flush-policy spec |
| `TextIndex` | the inverted index against the row-wise match |
| `Headers`, `Chunked`, `Listener` | MCP header mirror, chunked decoding, the accept loop |
| `Samples`, `Labels`, `Grouping` | PromQL rows into series |
| `Basics`, `Sorting` | shared definitions, stable sorting |

Code that updates state is a class or a method with loops, proved against a function of its inputs or
its old state; the theorems are then about that function. `Accumulator.Acc` carries a ghost log of
the calls made on it and is valid when its fields are the replay of that log, so every lemma about
`Replay` is about the object after any run of calls. Where a specification function is shared by code and
lemmas, a further lemma says what it means from the inputs alone (`Ladder.CoversIff`,
`KeyCounts.ScanTellsRows`, `Spelling.WrittenIff`, `Quantiles.ExplicitIsMeant`, `TextIndex.TokensAreWords`).

The hash is an arbitrary function from strings to `u64`, and a hash stands for the key it was computed
from. Quantiles are over the reals, with counts saturating at `u64`. Finite doubles in JSON are opaque
tokens. JSON text is a sequence of tokens, each string token recording whether its spelling holds an
escape. The alphabet of the tokenizer (which characters are alphanumeric, how each lower-cases) and
the bucket bounds of an exponential histogram are parameters. A header value arrives without the blanks
around it (section 5.5 of RFC 9110) and can be read only if it is ASCII text.

Where the code and its documentation disagree, the model follows the code:

- `json_get` is documented as always giving what the full parse would have given
  (crates/imbh-core/src/attributes.rs:82-85). It does on every text the full parser accepts as an object;
  `Lookup.LookupDiffersIff` says exactly when it does not, with three families of witnesses.
- `DurationSpec` is documented as lossless (crates/imbh-core/src/config.rs:577-578). It drops everything
  below a millisecond; `FlushPolicy.RoundTripIff` and `FlushPolicy.ReparseIff` give the exact conditions.
- Retiring a listener is documented as over a minute of failure (crates/imbh-server/src/lib.rs:569-571).
  On every run that retires, the delays served add up to 57.275 seconds (`Listener.RetiresAfter`).
- Coalescing equal rows counts the runs a row-at-a-time walk counts exactly when no blob on consecutive
  rows holds a NaN or a second, different value under one key (`RunCounts.RunsCountAlikeIff` with
  `RunCounts.SteadyIff`).
- The header mirror is meant to make headers agree with the body (crates/imbh-mcp/src/proxy.rs:221-228).
  Only the tool name is encoded for the wire, so a version or method that is not visible ASCII is
  refused; `Headers.MirrorMismatchIff` is the exact condition, with a witness for each cause.
- `parse_duration` multiplies minutes and hours unchecked (crates/imbh-core/src/config.rs:607-608). The
  model wraps around, as the shipped release profile does (Cargo.toml:293-298).

Check everything with `dafny verify dfyconfig.toml`.

## Model

| member | source | states |
|---|---|---|
| `Sketches.RunIsTruncatedTally` | crates/imbh-attrstats/src/accum.rs:173-199 | For every sequence of observations and every cap: the bounded sketch equals the unbounded exact table cut to its `cap` smallest hashes, with every retained entry complete and the same `dropped` and `bound` |
| `Sketches.SampleOfHashes` | crates/imbh-attrstats/src/accum.rs:90-199 | Bottom-k invariant: retained hashes are exactly the `cap` smallest distinct hashes seen, `dropped` holds iff more were seen, and then `bound` is the largest retained hash |
| `Sketches.SampleIgnoresOrder` | crates/imbh-attrstats/src/accum.rs:213-233 | Two runs over the same hashes, in any order and whatever is counted, hold the same sample, `dropped`, `bound`, sample rate and estimated total |
| `Sketches.EstimateOfRun` | crates/imbh-attrstats/src/accum.rs:211-233 | Over every run: the estimate is the number of hashes seen while none was dropped; afterwards the rate is the part of the hash space at or below the largest retained hash, and the estimate times the rate is the cap |
| `Sketches.NeverReadmitted` | crates/imbh-attrstats/src/accum.rs:173-199 | A hash once refused or evicted is absent after every continuation of the run |
| `Sketches.SmallestIsSmallest` | crates/imbh-attrstats/src/accum.rs:90-126 | The `k` smallest hashes of a set are a subset of size `min(k, n)` with everything left out above everything kept |
| `Sketches.TallyAt` | crates/imbh-attrstats/src/accum.rs:173-199 | An entry of the exact table is the fold of the observations of its own hash alone, in order |
| `Sketches.MergeIsExact` | crates/imbh-attrstats/src/accum.rs:247-272 | Merging two cut tables is the cut of the joined table, whichever side dropped entries, as long as the other side kept at least as many |
| `Sketches.MergeOfRuns` | crates/imbh-attrstats/src/accum.rs:235-272 | For an additive combine, merging the sketches of two observation sequences is the sketch of their concatenation: same entries, counters, `dropped`, `bound` |
| `Sketches.SampledMap.constructor` | crates/imbh-attrstats/src/accum.rs:149-156 | A new map is the empty sketch, its cap raised to at least 1 |
| `Sketches.SampledMap.NoteDrop` | crates/imbh-attrstats/src/accum.rs:158-169 | A drop sets the flag and tightens the bound to the largest retained hash; entries stay |
| `Sketches.SampledMap.Entry` | crates/imbh-attrstats/src/accum.rs:173-199 | The in-place `entry` has exactly the effect and answer of the specification step, over all five branches |
| `Sketches.SampledMap.Unite` | crates/imbh-attrstats/src/accum.rs:249-256 | The combining loop leaves the join of the two entry tables |
| `Sketches.SampledMap.TrimToBound` | crates/imbh-attrstats/src/accum.rs:262-264 | The first trimming loop leaves exactly the entries at or below the bound |
| `Sketches.SampledMap.TrimToCap` | crates/imbh-attrstats/src/accum.rs:265-268 | The second trimming loop leaves exactly the `cap` smallest hashes and records whether it removed any |
| `Sketches.SampledMap.Merge` | crates/imbh-attrstats/src/accum.rs:247-272 | The in-place merge leaves the specified merge of the two sketches |
| `Accumulator.Acc.constructor` | crates/imbh-attrstats/src/accum.rs:369-384 | A new accumulator is the state of the empty run |
| `Accumulator.Acc.BeginSegment` | crates/imbh-attrstats/src/accum.rs:401-414 | Starting a segment keeps the object equal to the replay of its log with one more segment event |
| `Accumulator.Acc.OpenWindows` | crates/imbh-attrstats/src/accum.rs:406-413 | The per-level loop opens a window exactly where none is open or the Euclidean window id changed |
| `Accumulator.Acc.AddRows` | crates/imbh-attrstats/src/accum.rs:416-418 | Adding rows keeps the object equal to the replay of its log |
| `Accumulator.Acc.Observe` | crates/imbh-attrstats/src/accum.rs:423-479 | One observation keeps the object equal to the replay of its log; only the key table changes |
| `Accumulator.Acc.TouchKey` | crates/imbh-attrstats/src/accum.rs:445-447 | The key lookup, early return and update are one touch of the key-level sketch |
| `Accumulator.Acc.ObserveKey` | crates/imbh-attrstats/src/accum.rs:448-461 | The counters of a tracked key move exactly as the specified step says: rows, runs, segments, string rows, lengths, value sketch |
| `Accumulator.Acc.ObserveText` | crates/imbh-attrstats/src/accum.rs:462-467 | The value lookup and update are one touch of the value-level sketch |
| `Accumulator.Acc.ObserveValue` | crates/imbh-attrstats/src/accum.rs:468-478 | The "last ordinal seen" comparisons count the open segment and each open window at most once |
| `Exactness.ChangesCountsOrdinals` | crates/imbh-attrstats/src/accum.rs:452-478 | Counting changes of a last-seen ordinal equals counting distinct ordinals, when ordinals never come back |
| `Exactness.FoldIsExactValue` | crates/imbh-attrstats/src/accum.rs:468-478 | A value's stepwise state equals its set-based definition: distinct segments and, per level, distinct windows |
| `Exactness.FoldIsExactKey` | crates/imbh-attrstats/src/accum.rs:448-478 | A key's stepwise state equals its definition by sums, a maximum, distinct segments and the truncated table of its values |
| `Feed.ClockShowsMark` | crates/imbh-attrstats/src/accum.rs:401-414 | The mutable clock shows, for every run of calls, the open segment and windows that the calls alone give: how many segments were begun, and per level how often the window id changed |
| `Exactness.TwoLevelRefinement` | crates/imbh-attrstats/src/accum.rs:173-479 | After any run of calls the capped accumulator's keys are the exact two-level table, defined from the calls alone, cut to the `key_cap` smallest key hashes and, per key, the `value_cap` smallest value hashes, all counters complete |
| `Exactness.TotalsAreExact` | crates/imbh-attrstats/src/accum.rs:401-418 | Over every run: the rows are those added, and the time range is the least start and greatest end of the segments begun |
| `Ladder.OpenedIsDistinctIff` | crates/imbh-attrstats/src/accum.rs:388-414 | Windows opened along a feed are at least the distinct ids, and equal them iff no window is reopened |
| `Ladder.SameOrdinalSameId` | crates/imbh-attrstats/src/accum.rs:388-414 | Without reopening, two segments share a window ordinal iff they share a window id |
| `Ladder.HoldingMembers` | crates/imbh-attrstats/src/accum.rs:401-479 | A segment holds a value iff some call carrying the value was made when that many segments had been begun |
| `Ladder.CoversIff` | crates/imbh-attrstats/src/accum.rs:407-407 | A start time is in exactly one window of a width, the one spanning it, negative times included, and its id names that window |
| `Ladder.LadderIsExact` | crates/imbh-attrstats/src/accum.rs:401-479 | Fed in nondecreasing time, every retained value's `segments` is the number of segments whose calls carry it and `windows[level]` the number of different windows those segments start in, windows being spans of the width |
| `Ladder.WindowsOpenedIff` | crates/imbh-attrstats/src/accum.rs:401-414 | The accumulator's window count per level is the number of different windows the segments start in iff the feed never returns to a window; nondecreasing times never do |
| `Postings.PostingsCountSegments` | crates/imbh-attrstats/src/accum.rs:329-333 | `postings` is the number of distinct pairs of a retained value and a segment holding it, in any feeding order |
| `Postings.PostingsCountWindows` | crates/imbh-attrstats/src/accum.rs:335-342 | `window_postings` is, for time-ordered segments, the number of distinct pairs of a retained value and a window, a span of the width, that holds it |
| `Scans.Apply` | crates/imbh-attrstats/src/scan.rs:198-220 | Applying a blob appends exactly its calls, with the run flag decided against the previous attributes, and carries the blob on |
| `Scans.Pairs` | crates/imbh-attrstats/src/scan.rs:206-218 | The pair loop makes one call per attribute, in order |
| `Scans.EndRun` | crates/imbh-attrstats/src/scan.rs:114-118 | Closing an open run applies it once with its count; with no open run nothing happens |
| `Scans.Utf8Row` | crates/imbh-attrstats/src/scan.rs:113-134 | One row joins the open run or closes it; the rows covered grow by exactly that row, or by none if it is null |
| `Scans.ScanUtf8` | crates/imbh-attrstats/src/scan.rs:104-138 | The plain scanner walks a coalescing of exactly the non-null rows, in order |
| `Scans.Flush` | crates/imbh-attrstats/src/scan.rs:156-160 | Flushing an index with no blob (null or out of range) applies nothing |
| `Scans.ScanDictionary` | crates/imbh-attrstats/src/scan.rs:145-186 | The dictionary scanner walks a coalescing of exactly the non-null rows of the column the indices decode to |
| `Coalescing.SplitCallsSameState` | crates/imbh-attrstats/src/accum.rs:423-479 | Counting a set of calls in one part or in two leaves the same accumulator state |
| `Coalescing.CoalescingIsInvisible` | crates/imbh-attrstats/src/scan.rs:104-220 | Walking counted runs leaves exactly the state, and carries exactly the previous attributes, of walking their rows one at a time |
| `Coalescing.ScanIsRowByRow` | crates/imbh-attrstats/src/scan.rs:104-220 | Either scanner, on blobs with distinct keys and no NaN, leaves the state of a row-at-a-time walk with count 1, null rows included |
| `Coalescing.ScansAgree` | crates/imbh-attrstats/src/scan.rs:104-186 | Two coalescings of the same rows, plain or dictionary encoded, leave the same state |
| `Coalescing.BatchesCompose` | crates/imbh-attrstats/src/scan.rs:40-100 | Scanning a column in two batches with `prev` carried over is scanning it whole |
| `Coalescing.DistinctIsSteady` | crates/imbh-attrstats/src/scan.rs:188-220 | Distinct keys and no NaN make a repeated blob start no new run |
| `KeyCounts.StartsRunIff` | crates/imbh-attrstats/src/scan.rs:195-210 | A pair starts a run iff the row above does not hold the same key with an equal value: absent key, other value or no row above |
| `KeyCounts.SameValueIff` | crates/imbh-core/src/value.rs:19-29 | Values are equal iff they are the same up to the sign of zeros and hold no NaN, at any depth |
| `KeyCounts.ScanTellsRows` | crates/imbh-attrstats/src/scan.rs:104-220 | After either scanner, every retained key that first appears in the column has the counters its rows say: rows with the pair, runs as pairs not continued from the row above, string rows, and the total and greatest UTF-8 length |
| `KeyCounts.ScanReportsIff` | crates/imbh-attrstats/src/scan.rs:206-218 | A scan reports a key with a value iff some row of the column holds that key with a value of that text, under the name its scope gives |
| `RunCounts.RowsCountHiddenRuns` | crates/imbh-attrstats/src/scan.rs:104-220 | For every coalescing: the row-at-a-time walk counts exactly the hidden runs more, one per repeat and per pair that restarts |
| `RunCounts.RunsCountAlikeIff` | crates/imbh-attrstats/src/scan.rs:104-220 | For every coalescing: both walks count the same runs iff every blob on two or more consecutive rows is steady |
| `RunCounts.SteadyIff` | crates/imbh-attrstats/src/scan.rs:188-220 | A blob is steady iff no value holds a NaN and a repeated key repeats the first value under it |
| `RunCounts.NaNShows` | crates/imbh-attrstats/src/scan.rs:206-210 | Witness: a blob holding a NaN counts more runs row by row |
| `RunCounts.ClashShows` | crates/imbh-attrstats/src/scan.rs:206-210 | Witness: a blob with two values under one key counts more runs row by row |
| `RunCounts.RepeatedKeyCanBeSteady` | crates/imbh-attrstats/src/scan.rs:206-210 | A repeated key with a repeated value is steady |
| `Analysis.Analyze` | crates/imbh-attrstats/src/lib.rs:242-271 | The sort-and-feed loop gives every table's unit its own segments and the global unit all of them, in one time order |
| `Analysis.Share` | crates/imbh-attrstats/src/lib.rs:261-271 | Feeding one segment changes its table's unit and the global one, and no other |
| `Analysis.EveryUnitIsOrdered` | crates/imbh-attrstats/src/lib.rs:238-265 | The single sort gives every unit nondecreasing times and loses or adds no segment |
| `Analysis.SelectsIffOverlap` | crates/imbh-attrstats/src/lib.rs:200-206 | A segment is selected iff it and the range have an instant in common |
| `Analysis.OrderHolds` | crates/imbh-attrstats/src/lib.rs:242-254 | What is fed is exactly the selected segments, each to its own table's unit |
| `Analysis.OrderIsByTimeThenPath` | crates/imbh-attrstats/src/lib.rs:255-259 | The feeding order is by start time, and for equal times by the code points of the path |
| `Analysis.HoldingOfJournal` | crates/imbh-attrstats/src/lib.rs:261-271 | A value is held by exactly the segments whose scan finds it |
| `Analysis.EveryLadderIsExact` | crates/imbh-attrstats/src/lib.rs:238-271 | End to end, for the global unit and every table's unit: the window counts are the different windows its segments start in, and each retained value counts exactly the segments whose scans find it and the different windows those start in |
| `Base64.DecodeOfEncode` | crates/imbh-core/src/canonical.rs:104-107 | Decoding standard padded base64 (section 4 of RFC 4648) gives back every byte string |
| `Base64.SymbolIs` | crates/imbh-core/src/canonical.rs:104-107 | The symbols are the standard alphabet of RFC 4648, in order |
| `Base64.GroupOfThree` | crates/imbh-core/src/canonical.rs:104-107 | Three bytes are written as four symbols of six bits, the first bits first |
| `Base64.LastGroup` | crates/imbh-core/src/canonical.rs:104-107 | One or two last bytes are followed by zero bits and padding |
| `Utf8.DecodeOfEncode` | crates/imbh-mcp/src/json.rs:212-239 | Every string survives its UTF-8 bytes (RFC 3629) under a strict decoder |
| `Utf8.CharBytes` | crates/imbh-attrstats/src/accum.rs:456-461 | The bytes of a character are those of the table in section 3 of RFC 3629 |
| `Canonical.ParseOfEncode` | crates/imbh-core/src/canonical.rs:40-107 | For every value: what is written reads back as its normal form iff the nesting is within the reader's limit, and is refused past it |
| `Spelling.WrittenIff` | crates/imbh-core/src/canonical.rs:64-102 | The canonical text, said without sorting: a text is the encoding of a value iff keys are in code-point order at every depth, equal keys in the order given, bytes in base64, non-finite doubles as the three sentinels |
| `Sorting.StrLeIff` | crates/imbh-core/src/canonical.rs:83-84 | Keys are compared by code points: a proper prefix first, else the smaller character where they first differ |
| `Grammar.ParseIff` | crates/imbh-core/src/json.rs:27-31 | The full parse accepts exactly the documents of the RFC 8259 grammar nesting less than 128 deep, with nothing after them, and gives their value: members in order and kept when repeated, integers past `i64` as doubles |
| `Canonical.EncodeOfNorm` | crates/imbh-core/src/canonical.rs:64-102 | Normalizing (stable key sort, base64 strings, folded `$f` maps) does not change the text; the order itself is stated by `Spelling.WrittenIff` |
| `Canonical.SameTextIffSameNorm` | crates/imbh-core/src/canonical.rs:64-102 | Two values are written identically iff their normal forms agree |
| `Canonical.RewriteIsStable` | crates/imbh-core/src/json.rs:124-192 | Normal forms are stable, and encode after parse after encode is encode |
| `Reordering.ReorderedSameNorm` | crates/imbh-core/src/canonical.rs:79-87 | Values that differ only by reordering distinct keys, at any depth, have the same normal form |
| `Reordering.KeyOrderIsInvisible` | crates/imbh-core/src/canonical.rs:79-87 | Values that differ only by reordering distinct keys, at any depth, are written identically |
| `Lookup.ReadValue` | crates/imbh-core/src/json.rs:124-176 | The visitor with its loops computes the recursive grammar's reading of every text |
| `Lookup.VisitSeq` | crates/imbh-core/src/json.rs:161-167 | The array loop collects exactly the grammar's items |
| `Lookup.VisitMap` | crates/imbh-core/src/json.rs:169-176 | The object loop collects exactly the grammar's pairs, in input order, duplicates kept |
| `Lookup.PickField` | crates/imbh-core/src/json.rs:70-110 | The single-key loop computes the specified pick: first match kept, others skipped, an escaped key refused |
| `Lookup.SkipAgrees` | crates/imbh-core/src/json.rs:95-110 | Skipping a value ends where parsing it ends, whenever parsing succeeds |
| `Lookup.LookupIsFirstPair` | crates/imbh-core/src/attributes.rs:81-93 | On every text the full parser accepts as an object, and every key, the lookup is the first pair with that key, for unsorted, duplicated and escaped keys |
| `Lookup.PickFollowsOutline` | crates/imbh-core/src/json.rs:95-110 | The walk answers by the object's outline: the whole object well punctuated, every key unescaped, only the first value under the key read |
| `Lookup.LookupDiffersIff` | crates/imbh-core/src/attributes.rs:81-93 | The lookup and the full parse disagree iff the full parser refuses the text as an object and the text still starts with a well punctuated object, keys unescaped, whose first value under the key parses |
| `Lookup.TrailingTextIsNotSeen` | crates/imbh-core/src/json.rs:70-75 | Witness family: text after the object is refused by the full parse and unseen by the fast path |
| `Lookup.SkippedNumberIsNotRead` | crates/imbh-core/src/json.rs:95-110 | Witness family: a skipped number past every double is refused by the full parse and walked over by the fast path |
| `Lookup.SentinelIsNotFolded` | crates/imbh-core/src/json.rs:179-192 | Witness family: a top-level `$f` sentinel is a double to the full parse and an object to the fast path |
| `Histograms.LocateBounds` | crates/imbh-core/src/histogram.rs:31-59 | A quantile walk ends in the bucket where the cumulative count reaches the rank, saturation included, with the interpolated value there, between that bucket's edges |
| `Histograms.LocateMonotone` | crates/imbh-core/src/histogram.rs:12-162 | A quantile walk over ordered buckets never falls as the rank rises |
| `Histograms.SumCounts` | crates/imbh-core/src/histogram.rs:22-27 | The saturating fold of the counts |
| `Histograms.FindBucket` | crates/imbh-core/src/histogram.rs:31-42 | The cumulative loop stops at the bucket the reference walk chooses, with `cumulative` at least that bucket's count, so the later subtraction cannot underflow even when sums saturate |
| `Histograms.Interpolate` | crates/imbh-core/src/histogram.rs:43-59 | The branches of the interpolation are the reference estimate in the chosen bucket |
| `Quantiles.ExplicitIsMeant` | crates/imbh-core/src/histogram.rs:12-60 | For every input: the estimate is in the first bucket whose cumulative count reaches the rank and divides it, from its lower to its upper bound, as the rank divides its observations; the overflow bucket, empty buckets, empty histograms, missing bounds and special quantiles included |
| `Histograms.HistogramQuantile` | crates/imbh-core/src/histogram.rs:12-60 | The loop-based estimator equals, on every input, the reference that `Quantiles.ExplicitIsMeant` describes |
| `Histograms.ExplicitMonotone` | crates/imbh-core/src/histogram.rs:12-60 | For ascending bounds and a positive total the estimate lies in the bucket its rank falls in, is nondecreasing in phi on [0,1], and stays between `min(bounds[0], 0)` and the last bound |
| `Histograms.FlatTotal` | crates/imbh-core/src/histogram.rs:88-96 | The total the source folds from the three parts is the total of the flattened bucket list, saturation included |
| `Histograms.FlatInOrder` | crates/imbh-core/src/histogram.rs:119-155 | Negatives reversed, zero, positives: the flattened non-empty buckets are in value order |
| `Histograms.WalkNegative` | crates/imbh-core/src/histogram.rs:119-134 | The reverse loop over negative buckets is the first phase of the one-pass walk |
| `Histograms.WalkPositive` | crates/imbh-core/src/histogram.rs:142-155 | The forward loop over positive buckets is the last phase of the one-pass walk |
| `Histograms.ExpHistogramQuantile` | crates/imbh-core/src/histogram.rs:70-162 | The three-phase walk equals, on every input, the one-pass quantile over the flattened bucket list that `Quantiles.ExponentialIsMeant` describes |
| `Quantiles.ExponentialIsMeant` | crates/imbh-core/src/histogram.rs:70-162 | For every input and any bucket bounds: the estimate divides, as the rank divides its observations, the negative bucket from `-bound(i+1)` to `-bound(i)` or the positive one from `bound(i)` to `bound(i+1)` that the rank falls in, or is 0 in the zero bucket; special quantiles and empty histograms included |
| `Histograms.ExponentialMonotone` | crates/imbh-core/src/histogram.rs:70-162 | For growing positive bounds and a positive total the estimate lies in the non-empty bucket its rank falls in, is nondecreasing in phi on [0,1], and the final fallback is never taken |
| `SeriesCodec.SeriesToBatch` | crates/imbh-head/src/ipc.rs:122-158 | The encoder's loops build exactly the specified rows, offsets and query list |
| `SeriesCodec.SeriesFromBatch` | crates/imbh-head/src/ipc.rs:167-234 | The decoder's cursor loop computes the specified row fold, errors included |
| `SeriesCodec.DecodeOfEncode` | crates/imbh-head/src/ipc.rs:122-234 | Decoding an encoded list returns exactly the series that have samples, in order, with labels, samples and query, even with identical neighbours |
| `SeriesCodec.DecodeOfStripped` | crates/imbh-head/src/ipc.rs:167-234 | Without metadata, runs of neighbours with equal label lists come back fused, with query 0 |
| `SeriesCodec.StrippedRoundTripIff` | crates/imbh-head/src/ipc.rs:167-234 | Labels and samples survive losing the metadata iff no two neighbouring surviving series share a label list |
| `Text.ParseOfShow` | crates/imbh-core/src/config.rs:596-661 | Printing a number and reading it back gives it, in any base up to 16 |
| `Text.SplitOfJoin` | crates/imbh-head/src/ipc.rs:152-186 | Splitting joined pieces at the separator gives the pieces back |
| `FlushPolicy.WriteField` | crates/imbh-core/src/config.rs:544-549 | One field behind the separator that turns into a comma: what is written stays the fields joined by commas |
| `FlushPolicy.Render` | crates/imbh-core/src/config.rs:539-569 | What it writes reads back as the policy cut to whole milliseconds, as the manual policy when there is no trigger, or is refused when a duration has too many milliseconds to count |
| `FlushPolicy.FromStr` | crates/imbh-core/src/config.rs:487-536 | The field loop computes the specified parse, first error returned |
| `FlushPolicy.ReadDuration` | crates/imbh-core/src/config.rs:574-613 | A rendered duration reads back as its whole milliseconds, or is refused when they do not fit `u64` |
| `FlushPolicy.ParseOfDisplay` | crates/imbh-core/src/config.rs:487-591 | What reading a rendered policy gives, for every policy: the manual policy, the policy cut to whole milliseconds, or a refusal |
| `FlushPolicy.RoundTripIff` | crates/imbh-core/src/config.rs:487-661 | Parsing a rendered policy gives it back iff its durations are countable whole milliseconds with the tick in range, or it has no trigger and the default tick |
| `FlushPolicy.ReparseIff` | crates/imbh-core/src/config.rs:487-591 | For every text that parses: rendering and parsing again gives the same policy iff it has a trigger or the default tick |
| `FlushPolicy.SubMillisecondIsLost` | crates/imbh-core/src/config.rs:574-591 | Witness: an interval of 1.5 ms comes back as 1 ms |
| `FlushPolicy.TickIsLost` | crates/imbh-core/src/config.rs:539-569 | Witness: the text `buffer=off,tick=2s` parses, and its policy comes back with the default tick |
| `FlushPolicy.UnitsAreExactIff` | crates/imbh-core/src/config.rs:596-613 | A number of seconds, minutes or hours, in every spelling of the unit, reads as that much time iff its seconds fit `u64`; otherwise the product wraps |
| `FlushPolicy.MillisAreExact` | crates/imbh-core/src/config.rs:596-613 | A number of milliseconds reads as that much time |
| `FlushPolicy.SizesAreExact` | crates/imbh-core/src/config.rs:618-642 | A number with a binary or decimal size unit reads as that many bytes, or is refused when they do not fit `u64` |
| `FlushPolicy.FullSpec` | crates/imbh-core/src/config.rs:487-569 | How a spec with every field is spelled, and that it reads as that policy |
| `TextIndex.TokenizeText` | crates/imbh-core/src/text.rs:13-29 | The character loop computes the tokens that `TextIndex.TokensAreWords` describes |
| `TextIndex.TokensAreWords` | crates/imbh-core/src/text.rs:13-29 | The tokens of every text are its pieces between separators, lower-cased, the empty ones dropped |
| `TextIndex.WordIsOneToken` | crates/imbh-core/src/text.rs:18-20 | A word whose characters each lower-case to one is a single token, lower-cased in place |
| `TextIndex.SeparatorsHaveNoToken` | crates/imbh-core/src/text.rs:21-23 | A text of separators has no token |
| `TextIndex.TokenizeAcross` | crates/imbh-core/src/text.rs:13-29 | Tokens on the two sides of any separator are the tokens of the sides, one after the other |
| `TextIndex.BuildIndex` | crates/imbh-index/src/lib.rs:105-157 | Wherever the writer flushes, the sub-segments store every row ordinal once and post it under exactly its tokens |
| `TextIndex.CollectHitRows` | crates/imbh-index/src/lib.rs:322-350 | Reading hits in any order, then sorting and deduplicating, gives exactly the hit rows, strictly ascending |
| `TextIndex.SearchBodyBool` | crates/imbh-index/src/lib.rs:218-265 | For any rows in any sub-segments the boolean search equals scanning the rows for all `must` and no `must_not`, empty and pure-negation queries included |
| `TextIndex.SearchQuery` | crates/imbh-core/src/text.rs:35-42 | Searching for a query's tokens equals filtering the rows with `matches_terms` |
| `Headers.DecodeOfEncode` | crates/imbh-mcp/src/json.rs:212-239 | Every string survives the header encoding, through base64 where it is not plain |
| `Headers.CarriedUnchangedIff` | crates/imbh-server/src/lib.rs:1036-1062 | A header value written raw arrives unchanged iff it is printable ASCII or tabs with no blank at either end |
| `Headers.EncodedIsCarried` | crates/imbh-mcp/src/json.rs:229-239 | Every string, once encoded, travels in a header unchanged |
| `Headers.MirrorMismatchIff` | crates/imbh-mcp/src/proxy.rs:229-251 | A message sent with the headers derived from it is refused for a header mismatch iff it is a modern request other than `server/discover` whose version or method does not travel unchanged, or a `tools/call` with no string name |
| `Headers.MirrorVersionIff` | crates/imbh-mcp/src/lib.rs:332-404 | It is refused for its version iff the headers pass, or are not checked, and it declares another version |
| `Headers.OtherOutcome` | crates/imbh-mcp/src/lib.rs:222-254 | Every other message: a legacy request, and `server/discover` without a version, are dispatched; a notification is accepted; none is refused by validation |
| `Headers.DispatchedIff` | crates/imbh-mcp/src/lib.rs:332-404 | Whatever headers arrive: a modern request is dispatched iff it declares the supported version and the headers say its version, method and, for a `tools/call`, tool name |
| `Headers.UnreadMethodIsRefused` | crates/imbh-mcp/src/proxy.rs:241-244 | Witness: a method outside ASCII is refused under the supported version |
| `Headers.TrimmedVersionIsRefused` | crates/imbh-mcp/src/proxy.rs:241-244 | Witness: a version with a blank at its end is refused for a mismatch |
| `Headers.NamelessCallIsRefused` | crates/imbh-mcp/src/proxy.rs:245-249 | Witness: a `tools/call` without a string name is refused |
| `Chunked.NextChunk` | crates/imbh-mcp/src/proxy.rs:294-306 | One turn of the loop reads a size line, that many bytes and a line end, or fails |
| `Chunked.Dechunk` | crates/imbh-mcp/src/proxy.rs:292-307 | The loop ends on every input and computes the specified decoding |
| `Chunked.OutputIsShorter` | crates/imbh-mcp/src/proxy.rs:292-307 | On every input that decodes, the output is shorter than the input |
| `Chunked.DechunkOfEncoded` | crates/imbh-mcp/src/proxy.rs:292-307 | For every split into non-empty chunks, with any hexadecimal spelling of the sizes and any extensions (section 7.1 of RFC 9112), decoding gives the body back whatever follows the last-chunk line |
| `Chunked.TruncatedIsRefused` | crates/imbh-mcp/src/proxy.rs:292-307 | A chunked body cut anywhere before the end of its last-chunk line is refused, never decoded in part |
| `Listener.Incoming.constructor` | crates/imbh-server/src/grpc.rs:156-161 | A new stream has no failures, no delay and an empty history |
| `Listener.Incoming.Next` | crates/imbh-server/src/grpc.rs:195-252 | One poll, loop included, has exactly the effect and answer of the state machine step |
| `Listener.PollKeepsInvariant` | crates/imbh-server/src/grpc.rs:195-252 | Every poll keeps the invariant and hands out at most one connection; while a delay is pending it changes nothing |
| `Listener.PollTakesPrefix` | crates/imbh-server/src/grpc.rs:213-251 | A poll takes a prefix of what the inner stream offers, each offer once, and answers by the first it does not pass over |
| `Listener.EveryRun` | crates/imbh-server/src/grpc.rs:195-252 | Over every run of polls: exactly the allowed connections in accept order; `failures` is the current unbroken run of errors; every delay is served before the next accept; the stream ends iff the inner one closes or the run of errors passes the limit |
| `Listener.BackoffBounds` | crates/imbh-server/src/lib.rs:579-586 | Delays start at 5 ms, never shrink as failures go on and never pass a second |
| `Listener.TotalBackoffIs` | crates/imbh-server/src/lib.rs:566-586 | The closed form of the delay served over a run of failures |
| `Listener.RetiresAfter` | crates/imbh-server/src/grpc.rs:213-236 | Over every run of polls: a stream that retires itself has served exactly 57.275 seconds of delay since its last arrival, less than the minute the documentation gives |
| `Listener.FailingRunRetires` | crates/imbh-server/src/grpc.rs:213-236 | Witness: 65 failures with nothing in between retire the stream |
| `Labels.NewIsLastWins` | crates/imbh-lgtm/src/model/common.rs:52-63 | A label set is sorted by name, each name once, with its last value |
| `Labels.SameSetIff` | crates/imbh-lgtm/src/model/common.rs:52-63 | Two lists of labels make the same set iff every name has the same last value in both |
| `Labels.LabelsLeIff` | crates/imbh-lgtm/src/model/common.rs:42-43 | Label sets are compared in dictionary order, pair by pair, name then value, each by code points |
| `Grouping.RowLabels` | crates/imbh-lgtm/src/source.rs:640-658 | The labels of a row: its string attributes by name, the last of a name winning, and under them the metric name and the service |
| `Grouping.ServesIff` | crates/imbh-lgtm/src/source.rs:298-305 | A counter rate takes exactly the rows that are cumulative, whatever the case, and monotonic |
| `Samples.CollapseDuplicates` | crates/imbh-lgtm/src/model/promql.rs:278-292 | The collapsing sort and dedup compute the specified collapse and count what was dropped |
| `Samples.CollapseKeepsWinners` | crates/imbh-lgtm/src/model/promql.rs:248-292 | Collapsing keeps exactly, for every time seen and in time order, the sample with the greatest value, any number above any NaN |
| `Samples.CollapseIgnoresOrder` | crates/imbh-lgtm/src/model/promql.rs:261-292 | The collapse is a function of the multiset of samples |
| `Samples.CollapseOfCollapse` | crates/imbh-lgtm/src/source.rs:319-326 | Collapsing again, as the evaluator does, changes nothing |
| `Samples.ResolveFailsIff` | crates/imbh-lgtm/src/model/promql.rs:336-359 | The strict read fails iff a time is repeated, naming the earliest one |
| `Samples.StrictReadIgnoresOrderIff` | crates/imbh-lgtm/src/source.rs:324-329 | Under the erroring policies a series is independent of scan order iff its same-time samples are identical |
| `Grouping.AddRow` | crates/imbh-lgtm/src/source.rs:297-313 | One row is added to its label set's samples, or is the first row refused, for the request or the cap |
| `Grouping.AddBatch` | crates/imbh-lgtm/src/source.rs:287-314 | A batch continues the rows before it |
| `Grouping.Finish` | crates/imbh-lgtm/src/source.rs:316-332 | The map comes out as one series per label set, in label order, each settled by the duplicate policy |
| `Grouping.ScalarSeries` | crates/imbh-lgtm/src/source.rs:278-332 | However the rows are split into batches: one series per distinct label set holding exactly its samples, or the error of the first row that does not fit |
| `Grouping.FailureIsReal` | crates/imbh-lgtm/src/source.rs:297-309 | A call fails only if its rows do not fit; an instant selector only if the distinct label sets exceed `max_series` |
| `Grouping.FailureIsUnique` | crates/imbh-lgtm/src/source.rs:297-309 | The rows determine which error is reported |
| `Grouping.LimitIgnoresOrder` | crates/imbh-lgtm/src/source.rs:307-309 | Whether the rows fit does not depend on their order |
| `Grouping.StrictSeriesAreStable` | crates/imbh-lgtm/src/source.rs:316-332 | Each series is its samples in time order, equal times in row order |
| `Grouping.GroupedIsUnique` | crates/imbh-lgtm/src/source.rs:316-332 | The result is determined by the label sets and the settled samples under each |
| `Grouping.ScanOrderIsInvisible` | crates/imbh-lgtm/src/source.rs:278-332 | The same rows in another order give the same series list: always when duplicates collapse, and under the erroring policies when same-time samples agree |

## Left out

- Write-ahead log, manifest, seal, compaction, retention and the reader snapshot protocol are not part of this model.
- The PromQL, LogQL and TraceQL evaluators and translators are not part of this model.
- Hash collisions and the statistical quality of the estimates: two keys with one hash are one key here.
- Overflow of the `u64` and `u32` counters inside the accumulator, except the segment ordinal, whose sentinel bounds the number of segments.
- Accumulator.Acc.Observe: the nested sketches are values inside the object, so borrowing a slot and updating it through the borrow is an update of the table.
- Scans.ScanUtf8: feeds one sink; the original feeds a slice of them, each the same calls.
- Scans.ScanDictionary: indices are naturals; a negative index, which the original treats as out of range, is any index past the values.
- Analysis.Analyze: reading Parquet is a function from segments to calls; unreadable segments and the report built afterwards are left out.
- Serde's byte-level lexing, number spelling and error values: the reader starts from tokens.
- IEEE rounding in the quantile estimators, and infinite or NaN bounds.
- SeriesCodec.DecodeOfEncode: Arrow arrays and the IPC stream are rows and two metadata strings; the row count must fit `u64`.
- The other batch codecs (trace, trace search, log page) copy fields one by one.
- FlushPolicy.FromStr: a build with overflow checks stops where the model wraps around.
- `FlushPolicy::triggered` and `effective_tick`, and the duplicate-policy spec: branch reading only.
- Tantivy beyond sub-segments, postings and Must/MustNot clauses, and attribute search.
- HTTP, sockets, TLS, origin checks and the rest of the MCP dispatch.
- Headers.MirrorMismatchIff: a control character in the version or method leaves a request head that is no longer the list of headers sent; what the server makes of such a head is left out.
- Listener.Incoming.Next: the inner stream is the list of what it offers during one poll, and whether a new delay is already over is part of the offer; wakers are left out.
- Grouping.ScalarSeries: columns of the wrong Arrow type, and the JSON column is taken as already parsed.
- `histogram_series`, which groups the same way, and its duplicate ordering.
- Report thresholds, text rendering and configuration parsing outside the flush policy.
