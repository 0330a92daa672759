/** The flush-policy spec: rendering, parsing and their round trip (crates/imbh-core/src/config.rs). */
module FlushPolicy {
  import opened Basics
  import opened Text

  const MILLI: nat := 1_000_000
  const SECOND: nat := 1_000_000_000

  /** `std::time::Duration`: whole seconds in a `u64`, and nanoseconds. */
  type duration = n: int | 0 <= n < 18_446_744_073_709_551_616 * 1_000_000_000

  datatype FlushSize = Budget | Bytes(n: u64) | Off

  datatype Policy = Policy(
    size: FlushSize,
    interval: Option<duration>,
    rows: Option<u64>,
    wal: Option<u64>,
    idle: Option<duration>,
    tick: duration)

  const DEFAULT_TICK: duration := 1_000_000_000
  const MIN_TICK: duration := 5_000_000
  const MAX_TICK: duration := 60_000_000_000

  function Default(): Policy { Policy(Budget, None, None, None, None, DEFAULT_TICK) }

  function Manual(): Policy { Policy(Off, None, None, None, None, DEFAULT_TICK) }

  predicate IsManual(p: Policy) {
    p.size == Off && p.interval.None? && p.rows.None? && p.wal.None? && p.idle.None?
  }

  function Clamp(d: duration): duration {
    if d < MIN_TICK then MIN_TICK else if d > MAX_TICK then MAX_TICK else d
  }

  // ----- rendering

  function Decimal(n: nat): string { Show(n, 10) }

  /** `DurationSpec`: the coarsest unit that stays exact, from whole milliseconds. */
  function ShowDuration(d: duration): string {
    var ms := d / MILLI;
    if ms == 0 then "0s"
    else if ms % 3_600_000 == 0 then Decimal(ms / 3_600_000) + "h"
    else if ms % 60_000 == 0 then Decimal(ms / 60_000) + "m"
    else if ms % 1_000 == 0 then Decimal(ms / 1_000) + "s"
    else Decimal(ms) + "ms"
  }

  function ShowSize(s: FlushSize): string {
    match s
    case Budget => "budget"
    case Bytes(n) => Decimal(n)
    case Off => "off"
  }

  function Maybe(key: string, value: Option<string>): seq<string> {
    if value.Some? then [key + "=" + value.value] else []
  }

  function ShownDuration(d: Option<duration>): Option<string> {
    if d.Some? then Some(ShowDuration(d.value)) else None
  }

  function ShownCount(n: Option<u64>): Option<string> {
    if n.Some? then Some(Decimal(n.value)) else None
  }

  function Fields(p: Policy): seq<string> {
    Maybe("interval", ShownDuration(p.interval))
      + (["buffer=" + ShowSize(p.size)]
      + (Maybe("rows", ShownCount(p.rows))
      + (Maybe("wal", ShownCount(p.wal))
      + (Maybe("idle", ShownDuration(p.idle))
      + ["tick=" + ShowDuration(p.tick)]))))
  }

  function Display(p: Policy): string {
    if IsManual(p) then "manual" else Join(Fields(p), ',')
  }

  lemma {:induction false} JoinSnoc(pieces: seq<string>, piece: string)
    ensures Join(pieces + [piece], ',') == if pieces == [] then piece else Join(pieces, ',') + "," + piece
  {
    if |pieces| > 1 {
      JoinSnoc(pieces[1..], piece);
      assert (pieces + [piece])[1..] == pieces[1..] + [piece];
    } else if |pieces| == 1 {
      assert (pieces + [piece])[1..] == [piece];
      assert Join(pieces + [piece], ',') == pieces[0] + [','] + piece;
    } else {
      assert pieces + [piece] == [piece];
    }
  }

  /** The `field` closure: one field behind a separator that turns into a comma. */
  method WriteField(text: string, sep: string, field: string, ghost done: seq<string>)
    returns (text': string, sep': string)
    requires text == Join(done, ',') && sep == if done == [] then "" else ","
    ensures text' == Join(done + [field], ',') && sep' == ","
  {
    text', sep' := text + sep + field, ",";
    JoinSnoc(done, field);
  }

  /** A field that is only written when there is a value. */
  method WriteMaybe(text: string, sep: string, key: string, value: Option<string>, ghost done: seq<string>)
    returns (text': string, sep': string)
    requires text == Join(done, ',') && sep == if done == [] then "" else ","
    ensures text' == Join(done + Maybe(key, value), ',') && sep' == if done + Maybe(key, value) == [] then "" else ","
  {
    text', sep' := text, sep;
    if value.Some? {
      text', sep' := WriteField(text, sep, key + "=" + value.value, done);
    } else {
      assert done + [] == done;
    }
  }

  /** `Display::fmt`. What it writes reads back as the policy with its durations cut to whole
      milliseconds, as the manual policy if there is no trigger, or is refused if a duration has more
      milliseconds than can be counted. */
  method Render(p: Policy) returns (text: string)
    ensures text == Display(p)
    ensures Parse(text) == if IsManual(p) then Ok(Manual()) else if AllCountable(p) then Ok(Rounded(p))
      else Err(Refused)
  {
    ParseOfDisplay(p);
    if IsManual(p) {
      return "manual";
    }
    text := "";
    var sep := "";
    ghost var a := Maybe("interval", ShownDuration(p.interval));
    assert [] + a == a;
    text, sep := WriteMaybe(text, sep, "interval", ShownDuration(p.interval), []);
    text, sep := WriteField(text, sep, "buffer=" + ShowSize(p.size), a);
    ghost var b := a + ["buffer=" + ShowSize(p.size)];
    text, sep := WriteMaybe(text, sep, "rows", ShownCount(p.rows), b);
    ghost var c := b + Maybe("rows", ShownCount(p.rows));
    text, sep := WriteMaybe(text, sep, "wal", ShownCount(p.wal), c);
    ghost var d := c + Maybe("wal", ShownCount(p.wal));
    text, sep := WriteMaybe(text, sep, "idle", ShownDuration(p.idle), d);
    ghost var e := d + Maybe("idle", ShownDuration(p.idle));
    text, sep := WriteField(text, sep, "tick=" + ShowDuration(p.tick), e);
    FieldsInOrder(p);
  }

  lemma FieldsInOrder(p: Policy)
    ensures Maybe("interval", ShownDuration(p.interval)) + ["buffer=" + ShowSize(p.size)]
      + Maybe("rows", ShownCount(p.rows)) + Maybe("wal", ShownCount(p.wal))
      + Maybe("idle", ShownDuration(p.idle)) + ["tick=" + ShowDuration(p.tick)] == Fields(p)
  {
    var a, b := Maybe("interval", ShownDuration(p.interval)), ["buffer=" + ShowSize(p.size)];
    var c, d := Maybe("rows", ShownCount(p.rows)), Maybe("wal", ShownCount(p.wal));
    var e, f := Maybe("idle", ShownDuration(p.idle)), ["tick=" + ShowDuration(p.tick)];
    ConcatAssociates(a + b + c + d, e, f);
    ConcatAssociates(a + b + c, d, e + f);
    ConcatAssociates(a + b, c, d + (e + f));
    ConcatAssociates(a, b, c + (d + (e + f)));
  }

  // ----- parsing

  datatype Failure = Refused

  predicate InNumber(c: char) { '0' <= c <= '9' || c == '_' }

  function NumberEnd(s: string, i: nat): (r: nat)
    requires i <= |s|
    ensures i <= r <= |s|
    decreases |s| - i
  {
    if i < |s| && InNumber(s[i]) then NumberEnd(s, i + 1) else i
  }

  function DropUnderscores(s: string): string {
    if s == [] then []
    else (if s[0] == '_' then [] else [s[0]]) + DropUnderscores(s[1..])
  }

  function SplitUnit(s: string): (string, string) {
    var i := NumberEnd(s, 0);
    (DropUnderscores(s[..i]), Trim(s[i..]))
  }

  /** A `u64` product of seconds, unchecked: it wraps around. */
  function Seconds(n: nat): Result<duration, Failure> {
    Ok(n % 0x1_0000_0000_0000_0000 * SECOND)
  }

  function ParseDuration(text: string): Result<duration, Failure> {
    var (digits, unit) := SplitUnit(Trim(text));
    match ParseU64(digits, 10)
    case None => Err(Refused)
    case Some(n) => InUnit(n, Lower(unit))
  }

  function InUnit(n: u64, unit: string): Result<duration, Failure> {
    if unit in {"", "s", "sec", "secs"} then Seconds(n)
    else if unit == "ms" then Ok(n * MILLI)
    else if unit in {"m", "min", "mins"} then Seconds(n * 60)
    else if unit in {"h", "hr", "hrs"} then Seconds(n * 3600)
    else Err(Refused)
  }

  function Scale(unit: string): Option<nat> {
    if unit in {"", "b"} then Some(1)
    else if unit in {"k", "kib"} then Some(1024)
    else if unit in {"m", "mib"} then Some(1_048_576)
    else if unit in {"g", "gib"} then Some(1_073_741_824)
    else if unit == "kb" then Some(1_000)
    else if unit == "mb" then Some(1_000_000)
    else if unit == "gb" then Some(1_000_000_000)
    else None
  }

  function ParseBytes(text: string): Result<u64, Failure> {
    var (digits, unit) := SplitUnit(Trim(text));
    match (ParseU64(digits, 10), Scale(Lower(unit)))
    case (Some(n), Some(k)) => if n * k <= U64_MAX then Ok(n * k) else Err(Refused)
    case _ => Err(Refused)
  }

  function ParseCount(text: string): Result<u64, Failure> {
    match ParseU64(Trim(DropUnderscores(text)), 10)
    case Some(n) => Ok(n)
    case None => Err(Refused)
  }

  function Then<T>(r: Result<T, Failure>, f: T -> Policy): Result<Policy, Failure> {
    match r
    case Ok(v) => Ok(f(v))
    case Err(e) => Err(e)
  }

  function SetSize(p: Policy, value: string): Result<Policy, Failure> {
    var v := Lower(value);
    if v in {"budget", "default"} then Ok(p.(size := Budget))
    else if v in {"off", "none"} then Ok(p.(size := Off))
    else Then(ParseBytes(value), (n: u64) => p.(size := Bytes(n)))
  }

  /** One `key=value` pair. */
  function Assign(p: Policy, key: string, value: string): Result<Policy, Failure> {
    if key in {"interval", "every"} then Then(ParseDuration(value), (d: duration) => p.(interval := Some(d)))
    else if key in {"buffer", "bytes"} then SetSize(p, value)
    else if key == "rows" then Then(ParseCount(value), (n: u64) => p.(rows := Some(n)))
    else if key == "wal" then Then(ParseBytes(value), (n: u64) => p.(wal := Some(n)))
    else if key == "idle" then Then(ParseDuration(value), (d: duration) => p.(idle := Some(d)))
    else if key == "tick" then Then(ParseDuration(value), (d: duration) => p.(tick := Clamp(d)))
    else Err(Refused)
  }

  function Apply(p: Policy, raw: string): Result<Policy, Failure> {
    var field := Trim(raw);
    if field == [] then Ok(p)
    else
      var i := IndexFrom(field, '=', 0);
      if i == |field| then Err(Refused) else Assign(p, Lower(Trim(field[..i])), Trim(field[i + 1..]))
  }

  function ApplyAll(p: Policy, fields: seq<string>): Result<Policy, Failure>
    decreases |fields|
  {
    if fields == [] then Ok(p)
    else match Apply(p, fields[0])
      case Err(e) => Err(e)
      case Ok(q) => ApplyAll(q, fields[1..])
  }

  predicate MeansManual(spec: string) {
    Lower(spec) in {"manual", "off", "none", "never"}
  }

  /** `FromStr`. */
  function Parse(s: string): Result<Policy, Failure> {
    var spec := Trim(s);
    if spec == [] then Ok(Default())
    else if MeansManual(spec) then Ok(Manual())
    else ApplyAll(Default(), Split(spec, ','))
  }

  method FromStr(s: string) returns (r: Result<Policy, Failure>)
    ensures r == Parse(s)
  {
    var spec := Trim(s);
    if spec == [] {
      return Ok(Default());
    }
    if MeansManual(spec) {
      return Ok(Manual());
    }
    var fields := Split(spec, ',');
    var policy := Default();
    for i := 0 to |fields|
      invariant ApplyAll(Default(), fields) == ApplyAll(policy, fields[i..])
    {
      var step := Apply(policy, fields[i]);
      if step.Err? {
        return Err(step.error);
      }
      assert fields[i..][1..] == fields[i + 1..];
      policy := step.value;
    }
    r := Ok(policy);
  }

  // ----- reading back one value

  lemma {:induction false} NumberEndAt(s: string, n: nat, i: nat)
    requires i <= n <= |s| && (forall k :: i <= k < n ==> InNumber(s[k])) && (n < |s| ==> !InNumber(s[n]))
    ensures NumberEnd(s, i) == n
    decreases n - i
  {
    if i < n {
      NumberEndAt(s, n, i + 1);
    }
  }

  lemma {:induction false} NothingToDrop(s: string)
    requires '_' !in s
    ensures DropUnderscores(s) == s
  {
    if s != [] {
      assert s == [s[0]] + s[1..];
      NothingToDrop(s[1..]);
    }
  }

  /** A unit: letters only. */
  predicate PlainUnit(unit: string) {
    forall i :: 0 <= i < |unit| ==> 'a' <= unit[i] <= 'z' || 'A' <= unit[i] <= 'Z'
  }

  lemma ScalarIsTrimmed(n: nat, unit: string)
    requires PlainUnit(unit)
    ensures Trim(Decimal(n) + unit) == Decimal(n) + unit
    ensures (Decimal(n) + unit)[0] in Decimal(n) && '0' <= (Decimal(n) + unit)[0] <= '9'
    ensures !IsSpace((Decimal(n) + unit)[|Decimal(n) + unit| - 1])
  {
    var s := Decimal(n) + unit;
    ShowChars(n, 10);
    assert s[0] == Decimal(n)[0] && Decimal(n)[0] in Decimal(n);
    if unit == "" {
      assert s == Decimal(n);
      assert s[|s| - 1] in Decimal(n);
    } else {
      assert s[|s| - 1] == unit[|unit| - 1];
    }
    TrimOfTrimmed(s);
  }

  lemma SplitScalar(n: nat, unit: string)
    requires PlainUnit(unit)
    ensures SplitUnit(Decimal(n) + unit) == (Decimal(n), unit)
  {
    var d := Decimal(n);
    var s := d + unit;
    ShowChars(n, 10);
    forall k | 0 <= k < |d|
      ensures InNumber(s[k])
    {
      assert s[k] == d[k] && d[k] in d;
    }
    NumberEndAt(s, |d|, 0);
    assert s[..|d|] == d && s[|d|..] == unit;
    NothingToDrop(d);
    TrimOfTrimmed(unit);
  }

  lemma LowerUnit(unit: string)
    requires unit in {"", "s", "ms", "m", "h"}
    ensures Lower(unit) == unit
  {
    LowerOfLower(unit);
  }

  lemma {:induction false} ParsesTooBig(n: nat)
    ensures ParseU64(Decimal(n), 10) == if n <= U64_MAX then Some(n) else None
  {
    ShowIsDigits(n, 10);
    ShowChars(n, 10);
    assert Decimal(n)[0] in Decimal(n);
  }

  lemma {:induction false} ParseScalar(n: nat, unit: string)
    requires PlainUnit(unit)
    ensures ParseDuration(Decimal(n) + unit) == if n <= U64_MAX then InUnit(n, Lower(unit)) else Err(Refused)
  {
    ScalarIsTrimmed(n, unit);
    SplitScalar(n, unit);
    ParsesTooBig(n);
  }

  /** The renderer keeps whole milliseconds, and the reader takes as many of them as fit a `u64`. */
  predicate Countable(d: duration) {
    d / MILLI % 1000 == 0 || d / MILLI <= U64_MAX
  }

  function WholeMillis(d: duration): duration {
    d / MILLI * MILLI
  }

  /** The number and unit `ShowDuration` writes. */
  function Scalar(d: duration): (nat, string) {
    var ms := d / MILLI;
    if ms == 0 then (0, "s")
    else if ms % 3_600_000 == 0 then (ms / 3_600_000, "h")
    else if ms % 60_000 == 0 then (ms / 60_000, "m")
    else if ms % 1_000 == 0 then (ms / 1_000, "s")
    else (ms, "ms")
  }

  lemma ShowsScalar(d: duration)
    ensures PlainUnit(Scalar(d).1) && Scalar(d).1 in {"", "s", "ms", "m", "h"}
    ensures ShowDuration(d) == Decimal(Scalar(d).0) + Scalar(d).1
  {
    assert Decimal(0) == "0";
    assert "0" + "s" == "0s";
  }

  /** Whole seconds, in any unit that divides them, come back exactly. */
  lemma WholeSeconds(d: duration, n: nat)
    requires n * 1000 == d / MILLI
    ensures n <= U64_MAX && Seconds(n) == Ok(WholeMillis(d))
  {
  }

  lemma {:induction false} ScalarValue(d: duration)
    ensures var (n, unit) := Scalar(d);
      (if n <= U64_MAX then InUnit(n, unit) else Err(Refused)) ==
      (if Countable(d) then Ok(WholeMillis(d)) else Err(Refused))
  {
    var ms := d / MILLI;
    CoarserUnits(ms);
    if ms == 0 {
      InSeconds(d);
    } else if ms % 3_600_000 == 0 {
      InHours(d);
    } else if ms % 60_000 == 0 {
      InMinutes(d);
    } else if ms % 1000 == 0 {
      InSeconds(d);
    } else {
      InMillis(d);
    }
  }

  lemma CoarserUnits(ms: nat)
    ensures ms % 3_600_000 == 0 || ms % 60_000 == 0 ==> ms % 1000 == 0
  {
    assert ms % 60_000 == 0 ==> ms == ms / 60_000 * 60 * 1000;
    assert ms % 3_600_000 == 0 ==> ms == ms / 3_600_000 * 3600 * 1000;
  }

  lemma InMillis(d: duration)
    requires d / MILLI % 1000 != 0
    ensures Scalar(d) == (d / MILLI, "ms")
    ensures d / MILLI <= U64_MAX ==> InUnit(d / MILLI, "ms") == Ok(WholeMillis(d))
  {
    CoarserUnits(d / MILLI);
  }

  lemma InHours(d: duration)
    requires d / MILLI % 3_600_000 == 0
    ensures var n := d / MILLI / 3_600_000; n <= U64_MAX && InUnit(n, "h") == Ok(WholeMillis(d))
  {
    WholeSeconds(d, d / MILLI / 3_600_000 * 3600);
  }

  lemma InMinutes(d: duration)
    requires d / MILLI % 60_000 == 0
    ensures var n := d / MILLI / 60_000; n <= U64_MAX && InUnit(n, "m") == Ok(WholeMillis(d))
  {
    WholeSeconds(d, d / MILLI / 60_000 * 60);
  }

  lemma InSeconds(d: duration)
    requires d / MILLI % 1000 == 0
    ensures var n := d / MILLI / 1000; n <= U64_MAX && InUnit(n, "s") == Ok(WholeMillis(d))
  {
    WholeSeconds(d, d / MILLI / 1000);
  }

  /** A rendered duration reads back as its whole milliseconds, if they can be counted. */
  lemma ReadDuration(d: duration)
    ensures ParseDuration(ShowDuration(d)) == if Countable(d) then Ok(WholeMillis(d)) else Err(Refused)
  {
    ShowsScalar(d);
    ParseScalar(Scalar(d).0, Scalar(d).1);
    LowerUnit(Scalar(d).1);
    ScalarValue(d);
  }

  lemma {:induction false} ReadBytes(n: u64)
    ensures ParseBytes(Decimal(n)) == Ok(n)
  {
    assert Decimal(n) + "" == Decimal(n);
    ScalarIsTrimmed(n, "");
    SplitScalar(n, "");
    LowerUnit("");
    ParseOfShow(n, 10);
  }

  lemma {:induction false} ReadCount(n: u64)
    ensures ParseCount(Decimal(n)) == Ok(n)
  {
    assert Decimal(n) + "" == Decimal(n);
    ScalarIsTrimmed(n, "");
    ParseOfShow(n, 10);
    ShowChars(n, 10);
    NothingToDrop(Decimal(n));
  }

  lemma {:induction false} ReadNumber(n: u64)
    ensures ParseBytes(Decimal(n)) == Ok(n) && ParseCount(Decimal(n)) == Ok(n)
  {
    ReadBytes(n);
    ReadCount(n);
  }

  /** A number is none of the size words. */
  lemma {:induction false} NumberIsNoWord(n: u64)
    ensures Lower(Decimal(n)) !in {"budget", "default", "off", "none"}
  {
    var s := Decimal(n);
    ShowChars(n, 10);
    assert s[0] in s;
    assert Lower(s)[0] == s[0];
  }

  lemma {:induction false} ReadSize(p: Policy, size: FlushSize)
    ensures SetSize(p, ShowSize(size)) == Ok(p.(size := size))
  {
    match size
    case Budget => LowerOfLower("budget");
    case Off => LowerOfLower("off");
    case Bytes(n) =>
      ReadNumber(n);
      NumberIsNoWord(n);
  }

  // ----- reading back one field

  /** A key the renderer writes. */
  predicate PlainKey(key: string) {
    key in {"interval", "buffer", "rows", "wal", "idle", "tick"}
  }

  lemma KeyFacts(key: string)
    requires PlainKey(key)
    ensures key != [] && '=' !in key && ',' !in key && Lower(key) == key && Trim(key) == key && !IsSpace(key[0])
  {
    LowerOfLower(key);
    TrimOfTrimmed(key);
  }

  /** A value with something visible at both ends and no comma. */
  predicate PlainValue(value: string) {
    value != [] && !IsSpace(value[0]) && !IsSpace(value[|value| - 1]) && ',' !in value
  }

  lemma ApplyField(p: Policy, key: string, value: string)
    requires PlainKey(key) && PlainValue(value)
    ensures Apply(p, key + "=" + value) == Assign(p, key, value)
  {
    var field := key + "=" + value;
    KeyFacts(key);
    assert field[0] == key[0] && field[|field| - 1] == value[|value| - 1];
    TrimOfTrimmed(field);
    IndexOfFirst(key, '=', value);
    assert field[..|key|] == key && field[|key| + 1..] == value;
    TrimOfTrimmed(value);
  }

  lemma NumberIsPlain(n: nat, unit: string)
    requires PlainUnit(unit)
    ensures PlainValue(Decimal(n) + unit)
  {
    ScalarIsTrimmed(n, unit);
    ShowChars(n, 10);
  }

  lemma DurationIsPlain(d: duration)
    ensures PlainValue(ShowDuration(d))
  {
    ShowsScalar(d);
    NumberIsPlain(Scalar(d).0, Scalar(d).1);
  }

  lemma CountIsPlain(n: u64)
    ensures PlainValue(Decimal(n))
  {
    NumberIsPlain(n, "");
    assert Decimal(n) + "" == Decimal(n);
  }

  lemma SizeIsPlain(s: FlushSize)
    ensures PlainValue(ShowSize(s))
  {
    if s.Bytes? {
      CountIsPlain(s.n);
    }
  }

  // ----- reading back the whole policy

  lemma {:induction false} ApplyAllConcat(p: Policy, xs: seq<string>, ys: seq<string>)
    ensures ApplyAll(p, xs + ys) == match ApplyAll(p, xs) case Ok(q) => ApplyAll(q, ys) case Err(e) => Err(e)
    decreases |xs|
  {
    if xs == [] {
      assert xs + ys == ys;
    } else {
      assert (xs + ys)[1..] == xs[1..] + ys;
      var step := Apply(p, xs[0]);
      if step.Ok? {
        ApplyAllConcat(step.value, xs[1..], ys);
      }
    }
  }

  lemma {:induction false} ApplyOne(p: Policy, field: string)
    ensures ApplyAll(p, [field]) == Apply(p, field)
  {
    assert [field][1..] == [];
  }

  predicate CountableIfAny(d: Option<duration>) {
    d.Some? ==> Countable(d.value)
  }

  function WholeIfAny(d: Option<duration>): Option<duration> {
    if d.Some? then Some(WholeMillis(d.value)) else None
  }

  lemma ReadInterval(p: Policy, d: Option<duration>)
    requires p.interval.None?
    ensures ApplyAll(p, Maybe("interval", ShownDuration(d)))
      == if CountableIfAny(d) then Ok(p.(interval := WholeIfAny(d))) else Err(Refused)
  {
    if d.Some? {
      var value := ShowDuration(d.value);
      ReadDuration(d.value);
      assert Assign(p, "interval", value) == if Countable(d.value) then Ok(p.(interval := Some(WholeMillis(d.value))))
        else Err(Refused);
      DurationIsPlain(d.value);
      ApplyField(p, "interval", value);
      ApplyOne(p, "interval" + "=" + value);
    }
  }

  lemma ReadIdle(p: Policy, d: Option<duration>)
    requires p.idle.None?
    ensures ApplyAll(p, Maybe("idle", ShownDuration(d)))
      == if CountableIfAny(d) then Ok(p.(idle := WholeIfAny(d))) else Err(Refused)
  {
    if d.Some? {
      var value := ShowDuration(d.value);
      ReadDuration(d.value);
      assert Assign(p, "idle", value) == if Countable(d.value) then Ok(p.(idle := Some(WholeMillis(d.value))))
        else Err(Refused);
      DurationIsPlain(d.value);
      ApplyField(p, "idle", value);
      ApplyOne(p, "idle" + "=" + value);
    }
  }

  lemma ReadRows(p: Policy, n: Option<u64>)
    requires p.rows.None?
    ensures ApplyAll(p, Maybe("rows", ShownCount(n))) == Ok(p.(rows := n))
  {
    if n.Some? {
      CountIsPlain(n.value);
      ApplyField(p, "rows", Decimal(n.value));
      ApplyOne(p, "rows" + "=" + Decimal(n.value));
      ReadNumber(n.value);
    }
  }

  lemma ReadWal(p: Policy, n: Option<u64>)
    requires p.wal.None?
    ensures ApplyAll(p, Maybe("wal", ShownCount(n))) == Ok(p.(wal := n))
  {
    if n.Some? {
      CountIsPlain(n.value);
      ApplyField(p, "wal", Decimal(n.value));
      ApplyOne(p, "wal" + "=" + Decimal(n.value));
      ReadNumber(n.value);
    }
  }

  lemma ReadBuffer(p: Policy, size: FlushSize)
    ensures ApplyAll(p, ["buffer=" + ShowSize(size)]) == Ok(p.(size := size))
  {
    SizeIsPlain(size);
    ApplyField(p, "buffer", ShowSize(size));
    assert "buffer" + "=" == "buffer=";
    ApplyOne(p, "buffer=" + ShowSize(size));
    ReadSize(p, size);
  }

  lemma ReadTick(p: Policy, tick: duration)
    ensures ApplyAll(p, ["tick=" + ShowDuration(tick)])
      == if Countable(tick) then Ok(p.(tick := Clamp(WholeMillis(tick)))) else Err(Refused)
  {
    var value := ShowDuration(tick);
    ReadDuration(tick);
    assert Assign(p, "tick", value) == if Countable(tick) then Ok(p.(tick := Clamp(WholeMillis(tick))))
      else Err(Refused);
    DurationIsPlain(tick);
    ApplyField(p, "tick", value);
    assert "tick" + "=" == "tick=";
    ApplyOne(p, "tick=" + value);
  }

  predicate AllCountable(p: Policy) {
    CountableIfAny(p.interval) && CountableIfAny(p.idle) && Countable(p.tick)
  }

  /** The policy with its durations cut to whole milliseconds and its tick in range. */
  function Rounded(p: Policy): Policy {
    p.(interval := WholeIfAny(p.interval), idle := WholeIfAny(p.idle), tick := Clamp(WholeMillis(p.tick)))
  }

  /** Fields from `wal` on. */
  lemma ReadTail(q: Policy, p: Policy)
    requires q.wal.None? && q.idle.None?
    ensures var rest := Maybe("wal", ShownCount(p.wal))
      + (Maybe("idle", ShownDuration(p.idle)) + ["tick=" + ShowDuration(p.tick)]);
      ApplyAll(q, rest) == if CountableIfAny(p.idle) && Countable(p.tick)
        then Ok(q.(wal := p.wal, idle := WholeIfAny(p.idle), tick := Clamp(WholeMillis(p.tick)))) else Err(Refused)
  {
    var tick, idle := ["tick=" + ShowDuration(p.tick)], Maybe("idle", ShownDuration(p.idle));
    var q1 := q.(wal := p.wal);
    ReadWal(q, p.wal);
    ApplyAllConcat(q, Maybe("wal", ShownCount(p.wal)), idle + tick);
    ReadIdle(q1, p.idle);
    ApplyAllConcat(q1, idle, tick);
    ReadTick(q1.(idle := WholeIfAny(p.idle)), p.tick);
  }

  lemma ReadFields(p: Policy)
    ensures ApplyAll(Default(), Fields(p)) == if AllCountable(p) then Ok(Rounded(p)) else Err(Refused)
  {
    var tail := Maybe("wal", ShownCount(p.wal))
      + (Maybe("idle", ShownDuration(p.idle)) + ["tick=" + ShowDuration(p.tick)]);
    var rows := Maybe("rows", ShownCount(p.rows));
    var buffer := ["buffer=" + ShowSize(p.size)];
    var q1 := Default().(interval := WholeIfAny(p.interval));
    var q2 := q1.(size := p.size);
    var q3 := q2.(rows := p.rows);
    ReadInterval(Default(), p.interval);
    ApplyAllConcat(Default(), Maybe("interval", ShownDuration(p.interval)), buffer + (rows + tail));
    ReadBuffer(q1, p.size);
    ApplyAllConcat(q1, buffer, rows + tail);
    ReadRows(q2, p.rows);
    ApplyAllConcat(q2, rows, tail);
    ReadTail(q3, p);
  }

  /** A rendered field: visible ends, no comma, an equals sign inside. */
  predicate PlainField(f: string) {
    f != [] && !IsSpace(f[0]) && !IsSpace(f[|f| - 1]) && ',' !in f && '=' in f
  }

  lemma MakesPlainField(key: string, value: string)
    requires PlainKey(key) && PlainValue(value)
    ensures PlainField(key + "=" + value)
  {
    KeyFacts(key);
    var f := key + "=" + value;
    assert f[0] == key[0] && f[|f| - 1] == value[|value| - 1] && f[|key|] == '=';
  }

  ghost predicate AllPlain(fields: seq<string>) {
    forall i :: 0 <= i < |fields| ==> PlainField(fields[i])
  }

  lemma MaybeIsPlain(key: string, value: Option<string>)
    requires PlainKey(key) && (value.Some? ==> PlainValue(value.value))
    ensures AllPlain(Maybe(key, value))
  {
    if value.Some? {
      MakesPlainField(key, value.value);
    }
  }

  lemma PlainConcat(xs: seq<string>, ys: seq<string>)
    requires AllPlain(xs) && AllPlain(ys)
    ensures AllPlain(xs + ys)
  {
  }

  lemma FieldsArePlain(p: Policy)
    ensures AllPlain(Fields(p)) && Fields(p) != []
  {
    var tick, idle := ["tick=" + ShowDuration(p.tick)], Maybe("idle", ShownDuration(p.idle));
    var wal, rows := Maybe("wal", ShownCount(p.wal)), Maybe("rows", ShownCount(p.rows));
    var buffer := ["buffer=" + ShowSize(p.size)];
    if p.interval.Some? { DurationIsPlain(p.interval.value); }
    if p.idle.Some? { DurationIsPlain(p.idle.value); }
    if p.rows.Some? { CountIsPlain(p.rows.value); }
    if p.wal.Some? { CountIsPlain(p.wal.value); }
    DurationIsPlain(p.tick);
    SizeIsPlain(p.size);
    MaybeIsPlain("interval", ShownDuration(p.interval));
    MaybeIsPlain("rows", ShownCount(p.rows));
    MaybeIsPlain("wal", ShownCount(p.wal));
    MaybeIsPlain("idle", ShownDuration(p.idle));
    MakesPlainField("tick", ShowDuration(p.tick));
    MakesPlainField("buffer", ShowSize(p.size));
    assert "tick" + "=" == "tick=" && "buffer" + "=" == "buffer=";
    PlainConcat(idle, tick);
    PlainConcat(wal, idle + tick);
    PlainConcat(rows, wal + (idle + tick));
    PlainConcat(buffer, rows + (wal + (idle + tick)));
    PlainConcat(Maybe("interval", ShownDuration(p.interval)), buffer + (rows + (wal + (idle + tick))));
  }

  lemma {:induction false} JoinedEnds(fields: seq<string>)
    requires AllPlain(fields) && fields != []
    ensures var s := Join(fields, ','); s != [] && !IsSpace(s[0]) && !IsSpace(s[|s| - 1]) && '=' in s
  {
    if |fields| > 1 {
      JoinedEnds(fields[1..]);
      var s, rest := Join(fields, ','), Join(fields[1..], ',');
      assert s[0] == fields[0][0] && s[|s| - 1] == rest[|rest| - 1];
      assert forall c :: c in fields[0] ==> c in s;
      assert PlainField(fields[0]);
    }
  }

  lemma NotManualText(s: string)
    requires '=' in s
    ensures !MeansManual(s)
  {
    var i :| 0 <= i < |s| && s[i] == '=';
    assert Lower(s)[i] == '=';
    assert '=' in Lower(s);
  }

  lemma ManualText()
    ensures Parse("manual") == Ok(Manual())
  {
    TrimOfTrimmed("manual");
    LowerOfLower("manual");
  }

  /** Reading the fields of any policy, even of one without a trigger. */
  lemma ParseOfFields(p: Policy)
    ensures Parse(Join(Fields(p), ',')) == if AllCountable(p) then Ok(Rounded(p)) else Err(Refused)
  {
    var fields := Fields(p);
    FieldsArePlain(p);
    JoinedEnds(fields);
    TrimOfTrimmed(Join(fields, ','));
    NotManualText(Join(fields, ','));
    SplitOfJoin(fields, ',');
    ReadFields(p);
  }

  /** What reading a rendered policy gives, in every case. */
  lemma ParseOfDisplay(p: Policy)
    ensures Parse(Display(p)) ==
      if IsManual(p) then Ok(Manual()) else if AllCountable(p) then Ok(Rounded(p)) else Err(Refused)
  {
    if IsManual(p) {
      ManualText();
    } else {
      ParseOfFields(p);
    }
  }

  predicate IsWhole(d: duration) {
    d % MILLI == 0
  }

  /** What the spec syntax can say about a policy that has a trigger. */
  predicate Expressible(p: Policy) {
    && AllCountable(p)
    && (p.interval.Some? ==> IsWhole(p.interval.value))
    && (p.idle.Some? ==> IsWhole(p.idle.value))
    && IsWhole(p.tick) && MIN_TICK <= p.tick <= MAX_TICK
  }

  lemma RoundedIff(p: Policy)
    ensures AllCountable(p) && Rounded(p) == p <==> Expressible(p)
  {
  }

  /** The round trip holds exactly for these policies: with a trigger, whole milliseconds whose
      count fits and a tick in range; without one, the default tick. */
  lemma RoundTripIff(p: Policy)
    ensures Parse(Display(p)) == Ok(p) <==> if IsManual(p) then p.tick == DEFAULT_TICK else Expressible(p)
  {
    ParseOfDisplay(p);
    RoundedIff(p);
  }

  /** A policy that does not come back: its interval of one and a half milliseconds is read as one. */
  lemma {:induction false} SubMillisecondIsLost(p: Policy)
    requires p == Default().(interval := Some(1_500_000))
    ensures Parse(Display(p)) == Ok(p.(interval := Some(1_000_000))) != Ok(p)
  {
    ParseOfDisplay(p);
  }

  /** The duration units from seconds up, in seconds. */
  predicate DurationUnit(unit: string, seconds: nat) {
    || (unit in {"", "s", "sec", "secs"} && seconds == 1)
    || (unit in {"m", "min", "mins"} && seconds == 60)
    || (unit in {"h", "hr", "hrs"} && seconds == 3600)
  }

  lemma LowerLetters(unit: string)
    requires unit in {"", "s", "sec", "secs", "m", "min", "mins", "h", "hr", "hrs", "ms"}
    ensures PlainUnit(unit) && Lower(unit) == unit
  {
    LowerOfLower(unit);
  }

  lemma {:induction false} ReadUnit(n: u64, unit: string, seconds: nat)
    requires DurationUnit(unit, seconds)
    ensures ParseDuration(Decimal(n) + unit) == Seconds(n * seconds)
  {
    LowerLetters(unit);
    ParseScalar(n, unit);
  }

  /** A number of seconds, minutes or hours reads as that much time exactly when its seconds fit a `u64`. */
  lemma {:induction false} UnitsAreExactIff(n: u64, unit: string, seconds: nat)
    requires DurationUnit(unit, seconds)
    ensures var r := ParseDuration(Decimal(n) + unit);
      r.Ok? && (r.value == n * seconds * SECOND <==> n * seconds <= U64_MAX)
  {
    ReadUnit(n, unit, seconds);
    WrapsIff(n * seconds);
  }

  /** A number of milliseconds always reads as that much time. */
  lemma {:induction false} MillisAreExact(n: u64)
    ensures ParseDuration(Decimal(n) + "ms") == Ok(n * 1_000_000)
  {
    LowerLetters("ms");
    ParseScalar(n, "ms");
  }

  /** The size units, in bytes. */
  predicate SizeUnit(unit: string, bytes: nat) {
    || (unit in {"", "B"} && bytes == 1)
    || (unit in {"K", "KiB"} && bytes == 1024)
    || (unit in {"M", "MiB"} && bytes == 1024 * 1024)
    || (unit in {"G", "GiB"} && bytes == 1024 * 1024 * 1024)
    || (unit == "KB" && bytes == 1000)
    || (unit == "MB" && bytes == 1000 * 1000)
    || (unit == "GB" && bytes == 1000 * 1000 * 1000)
  }

  lemma {:induction false} SizeUnitScales(unit: string, bytes: nat)
    requires SizeUnit(unit, bytes)
    ensures PlainUnit(unit) && Scale(Lower(unit)) == Some(bytes)
  {
    var low := Lower(unit);
    assert |low| == |unit| && forall i :: 0 <= i < |unit| ==> low[i] == LowerChar(unit[i]);
    if |unit| == 0 {
      assert low == "";
    } else if |unit| == 1 {
      assert low == [low[0]];
    } else if |unit| == 2 {
      assert low == [low[0], low[1]];
    } else {
      assert low == [low[0], low[1], low[2]];
    }
  }

  /** A number with a size unit reads as that many bytes, and is refused when they do not fit. */
  lemma {:induction false} SizesAreExact(n: u64, unit: string, bytes: nat)
    requires SizeUnit(unit, bytes)
    ensures ParseBytes(Decimal(n) + unit) == if n * bytes <= U64_MAX then Ok(n * bytes) else Err(Refused)
  {
    SizeUnitScales(unit, bytes);
    ScalarIsTrimmed(n, unit);
    SplitScalar(n, unit);
    ParseOfShow(n, 10);
  }

  lemma WrapsIff(n: nat)
    ensures Seconds(n).value == n * SECOND <==> n <= U64_MAX
  {
  }

  // ----- everything the parser produces is expressible

  lemma MillisAreWhole(n: nat)
    requires n <= U64_MAX || n % 1000 == 0
    requires n * MILLI < 18_446_744_073_709_551_616 * 1_000_000_000
    ensures IsWhole(n * MILLI) && Countable(n * MILLI)
  {
    assert n * MILLI / MILLI == n;
  }

  lemma SecondsAreWhole(n: nat)
    ensures IsWhole(Seconds(n).value) && Countable(Seconds(n).value)
  {
    MillisAreWhole(n % 0x1_0000_0000_0000_0000 * 1000);
  }

  lemma UnitsAreWhole(n: u64, unit: string)
    ensures InUnit(n, unit).Ok? ==> IsWhole(InUnit(n, unit).value) && Countable(InUnit(n, unit).value)
  {
    MillisAreWhole(n);
    SecondsAreWhole(n);
    SecondsAreWhole(n * 60);
    SecondsAreWhole(n * 3600);
  }

  lemma {:induction false} DurationsAreWhole(text: string)
    ensures ParseDuration(text).Ok? ==> IsWhole(ParseDuration(text).value) && Countable(ParseDuration(text).value)
  {
    var (digits, unit) := SplitUnit(Trim(text));
    var n := ParseU64(digits, 10);
    if n.Some? {
      UnitsAreWhole(n.value, Lower(unit));
    }
  }

  /** `q` is `p` with at most one field set, a duration field to `d`. */
  predicate OneFieldSet(p: Policy, q: Policy, d: Result<duration, Failure>) {
    && (q.interval == p.interval || (d.Ok? && q.interval == Some(d.value)))
    && (q.idle == p.idle || (d.Ok? && q.idle == Some(d.value)))
    && (q.tick == p.tick || (d.Ok? && q.tick == Clamp(d.value)))
  }

  lemma {:induction false} AssignSetsOneField(p: Policy, key: string, value: string)
    ensures var r := Assign(p, key, value); r.Ok? ==> OneFieldSet(p, r.value, ParseDuration(value))
  {
  }

  lemma {:induction false} OneFieldKeepsExpressible(p: Policy, q: Policy, d: Result<duration, Failure>)
    requires Expressible(p) && OneFieldSet(p, q, d)
    requires d.Ok? ==> IsWhole(d.value) && Countable(d.value)
    ensures Expressible(q)
  {
  }

  lemma {:induction false} AssignKeepsExpressible(p: Policy, key: string, value: string)
    requires Expressible(p)
    ensures Assign(p, key, value).Ok? ==> Expressible(Assign(p, key, value).value)
  {
    DurationsAreWhole(value);
    AssignSetsOneField(p, key, value);
    var r := Assign(p, key, value);
    if r.Ok? {
      OneFieldKeepsExpressible(p, r.value, ParseDuration(value));
    }
  }

  lemma {:induction false} ApplyKeepsExpressible(p: Policy, raw: string)
    requires Expressible(p)
    ensures Apply(p, raw).Ok? ==> Expressible(Apply(p, raw).value)
  {
    var field := Trim(raw);
    var i := IndexFrom(field, '=', 0);
    if i < |field| {
      AssignKeepsExpressible(p, Lower(Trim(field[..i])), Trim(field[i + 1..]));
    }
  }

  lemma {:induction false} ApplyAllKeepsExpressible(p: Policy, fields: seq<string>)
    requires Expressible(p)
    ensures ApplyAll(p, fields).Ok? ==> Expressible(ApplyAll(p, fields).value)
    decreases |fields|
  {
    if fields != [] {
      ApplyKeepsExpressible(p, fields[0]);
      var step := Apply(p, fields[0]);
      if step.Ok? {
        ApplyAllKeepsExpressible(step.value, fields[1..]);
      }
    }
  }

  /** For every spec text that parses: rendering the policy and parsing again gives the same policy,
      unless it turned every trigger off and still set a tick. */
  lemma ReparseIff(text: string)
    requires Parse(text).Ok?
    ensures var p := Parse(text).value;
      Parse(Display(p)) == Ok(p) <==> !IsManual(p) || p.tick == DEFAULT_TICK
  {
    assert Expressible(Default()) && Expressible(Manual());
    ApplyAllKeepsExpressible(Default(), Split(Trim(text), ','));
    RoundTripIff(Parse(text).value);
  }

  lemma {:induction false} TwoSecondsShown()
    ensures ShowDuration(2_000_000_000) == "2s"
  {
    assert Decimal(2) == "2";
  }

  lemma {:induction false} FieldsOfManual(tick: duration)
    ensures Join(Fields(Manual().(tick := tick)), ',') == "buffer=off,tick=" + ShowDuration(tick)
  {
    var fields := ["buffer=off", "tick=" + ShowDuration(tick)];
    assert "buffer=" + "off" == "buffer=off";
    assert Fields(Manual().(tick := tick))
      == [] + (["buffer=off"] + ([] + ([] + ([] + ["tick=" + ShowDuration(tick)])))) == fields;
    assert fields[1..] == ["tick=" + ShowDuration(tick)];
    assert "buffer=off,tick=" == "buffer=off" + [','] + "tick=";
  }

  /** A text that parses and whose policy does not come back: without a trigger the tick is not rendered. */
  lemma {:induction false} TickIsLost(text: string, p: Policy)
    requires text == "buffer=off,tick=2s" && p == Manual().(tick := 2_000_000_000)
    ensures Parse(text) == Ok(p) && Parse(Display(p)) == Ok(Manual()) != Ok(p)
  {
    ParseOfDisplay(p);
    ParseOfFields(p);
    assert Rounded(p) == p && AllCountable(p);
    FieldsOfManual(p.tick);
    TwoSecondsShown();
    assert text == "buffer=off,tick=" + "2s";
  }

  // ----- a spec with every field

  lemma {:induction false} SmallNumbers()
    ensures Decimal(5) == "5" && Decimal(7) == "7" && Decimal(8) == "8" && Decimal(2) == "2" && Decimal(1) == "1"
  {
  }

  /** A policy with every field set. */
  function Full(): Policy {
    Policy(Off, Some(5_000_000_000), Some(7), Some(8), Some(120_000_000_000), DEFAULT_TICK)
  }

  lemma {:induction false} FullFields(p: Policy)
    requires p == Full()
    ensures Fields(p) == ["interval=5s", "buffer=off", "rows=7", "wal=8", "idle=2m", "tick=1s"]
  {
    SmallNumbers();
    assert ShowDuration(p.interval.value) == "5s" && ShowDuration(p.idle.value) == "2m" && ShowDuration(p.tick) == "1s";
    assert "interval" + "=" + "5s" == "interval=5s" && "idle" + "=" + "2m" == "idle=2m";
    assert "rows" + "=" + "7" == "rows=7" && "wal" + "=" + "8" == "wal=8";
    assert "buffer=" + "off" == "buffer=off" && "tick=" + "1s" == "tick=1s";
  }

  /** How a spec with every field is spelled, and that it reads as that policy. */
  lemma {:induction false} FullSpec(p: Policy, text: string)
    requires p == Full()
    requires text == Join(["interval=5s", "buffer=off", "rows=7", "wal=8", "idle=2m", "tick=1s"], ',')
    ensures Display(p) == text && Parse(text) == Ok(p)
  {
    FullFields(p);
    ParseOfFields(p);
    assert AllCountable(p) && Rounded(p) == p;
  }
}
