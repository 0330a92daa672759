/** The canonical-JSON writer and reader (crates/imbh-core/src/canonical.rs and json.rs).

    Text is a sequence of the tokens `serde_json` produces and consumes; the grammar of RFC 8259 is
    spelled out below. A finite double is known by its decimal text, and an integer past the `i64`
    range by the decimal text of the nearest double. */
module Json {
  import opened Basics
  import opened Values
  import opened Sorting
  import Base64

  datatype Token =
    | LBrace | RBrace | LBracket | RBracket | Comma | Colon
    | NullT | TrueT | FalseT
    | StrT(text: string, escaped: bool)  // a string, and whether its spelling holds an escape
    | LoneT                              // a string holding half of a surrogate pair
    | IntT(n: i64)
    | BigT(nearest: string)              // an integer that does not fit `i64`
    | FloatT(decimal: string)
    | HugeT                              // a number past every finite double
    | BadT                               // anything that is no JSON token

  /** `serde_json` allows this much nesting, counting down. */
  const DEPTH: nat := 128

  // ----- reading

  /** `sentinel_or_map`. */
  function SentinelOrMap(pairs: seq<Entry>): AnyValue {
    if |pairs| == 1 && pairs[0].key == "$f" && pairs[0].value == Str("nan") then Dbl(NaN)
    else if |pairs| == 1 && pairs[0].key == "$f" && pairs[0].value == Str("inf") then Dbl(PosInf)
    else if |pairs| == 1 && pairs[0].key == "$f" && pairs[0].value == Str("-inf") then Dbl(NegInf)
    else Map(pairs)
  }

  /** One value off the front of the text, under a nesting budget. */
  function ParseValue(ts: seq<Token>, depth: nat): (r: Option<(AnyValue, seq<Token>)>)
    ensures r.Some? ==> |r.value.1| < |ts|
    decreases |ts|, 1
  {
    if ts == [] then None
    else match ts[0]
      case NullT => Some((Null, ts[1..]))
      case TrueT => Some((Bool(true), ts[1..]))
      case FalseT => Some((Bool(false), ts[1..]))
      case StrT(s, _) => Some((Str(s), ts[1..]))
      case IntT(n) => Some((Int(n), ts[1..]))
      case BigT(d) => Some((Dbl(Finite(d)), ts[1..]))
      case FloatT(d) => Some((Dbl(Finite(d)), ts[1..]))
      case LBracket =>
        if depth <= 1 then None
        else (match ParseItems(ts[1..], depth - 1, true)
          case None => None
          case Some((items, rest)) => Some((Array(items), rest)))
      case LBrace =>
        if depth <= 1 then None
        else (match ParseMembers(ts[1..], depth - 1, true)
          case None => None
          case Some((pairs, rest)) => Some((SentinelOrMap(pairs), rest)))
      case _ => None
  }

  /** The text after the comma that every item but the first needs. */
  function AfterComma(ts: seq<Token>, first: bool): (r: Option<seq<Token>>)
    ensures r.Some? ==> |r.value| <= |ts|
  {
    if first then Some(ts) else if ts != [] && ts[0] == Comma then Some(ts[1..]) else None
  }

  function ParseItems(ts: seq<Token>, depth: nat, first: bool): (r: Option<(seq<AnyValue>, seq<Token>)>)
    ensures r.Some? ==> |r.value.1| < |ts|
    decreases |ts|, 2
  {
    if ts != [] && ts[0] == RBracket then Some(([], ts[1..]))
    else match AfterComma(ts, first)
      case None => None
      case Some(us) =>
        match ParseValue(us, depth)
        case None => None
        case Some((v, rest)) =>
          match ParseItems(rest, depth, false)
          case None => None
          case Some((vs, end)) => Some(([v] + vs, end))
  }

  function ParseMembers(ts: seq<Token>, depth: nat, first: bool): (r: Option<(seq<Entry>, seq<Token>)>)
    ensures r.Some? ==> |r.value.1| < |ts|
    decreases |ts|, 2
  {
    if ts != [] && ts[0] == RBrace then Some(([], ts[1..]))
    else match AfterComma(ts, first)
      case None => None
      case Some(us) =>
        if |us| < 2 || !us[0].StrT? || us[1] != Colon then None
        else match ParseValue(us[2..], depth)
          case None => None
          case Some((v, rest)) =>
            match ParseMembers(rest, depth, false)
            case None => None
            case Some((pairs, end)) => Some(([Entry(us[0].text, v)] + pairs, end))
  }

  /** `parse`: a complete document, with nothing after it. */
  function Parse(ts: seq<Token>): Option<AnyValue> {
    match ParseValue(ts, DEPTH)
    case Some((v, rest)) => if rest == [] then Some(v) else None
    case None => None
  }

  function ParseObject(ts: seq<Token>): Option<seq<Entry>> {
    match Parse(ts)
    case Some(Map(pairs)) => Some(pairs)
    case _ => None
  }

  // ----- writing

  predicate KeyLe(a: Entry, b: Entry) {
    StrLe(a.key, b.key)
  }

  /** Whether writing the string takes an escape. */
  predicate NeedsEscape(s: string) {
    exists c :: c in s && (c == '"' || c == '\\' || c < ' ')
  }

  function Quoted(s: string): Token {
    StrT(s, NeedsEscape(s))
  }

  /** A member of an object, already written. */
  datatype Member = Member(key: string, text: seq<Token>)

  predicate MemberLe(a: Member, b: Member) {
    StrLe(a.key, b.key)
  }

  function Sentinel(tag: string): seq<Token> {
    [LBrace, Quoted("$f"), Colon, Quoted(tag), RBrace]
  }

  function EncodeDouble(d: Double): seq<Token> {
    match d
    case Finite(x) => [FloatT(x)]
    case NaN => Sentinel("nan")
    case PosInf => Sentinel("inf")
    case NegInf => Sentinel("-inf")
  }

  /** `canonical_json_value`. */
  function Encode(v: AnyValue): seq<Token>
    decreases v, 1
  {
    match v
    case Null => [NullT]
    case Bool(b) => [if b then TrueT else FalseT]
    case Int(i) => [IntT(i)]
    case Dbl(d) => EncodeDouble(d)
    case Str(s) => [Quoted(s)]
    case Bytes(bs) => [Quoted(Base64.Encode(bs))]
    case Array(items) => [LBracket] + ItemsText(EncodeItems(items), true)
    case Map(entries) => [LBrace] + MembersText(Sort(MemberLe, EncodeEntries(entries)), true)
  }

  function EncodeItems(items: seq<AnyValue>): seq<seq<Token>>
    decreases items, 0
  {
    if items == [] then [] else [Encode(items[0])] + EncodeItems(items[1..])
  }

  function EncodeEntries(entries: seq<Entry>): seq<Member>
    decreases entries, 0
  {
    if entries == [] then []
    else [Member(entries[0].key, Encode(entries[0].value))] + EncodeEntries(entries[1..])
  }

  function Separator(first: bool): seq<Token> {
    if first then [] else [Comma]
  }

  function ItemsText(items: seq<seq<Token>>, first: bool): seq<Token> {
    if items == [] then [RBracket]
    else Separator(first) + items[0] + ItemsText(items[1..], false)
  }

  function MembersText(ms: seq<Member>, first: bool): seq<Token> {
    if ms == [] then [RBrace]
    else Separator(first) + [Quoted(ms[0].key), Colon] + ms[0].text + MembersText(ms[1..], false)
  }

  // ----- normal forms

  /** What a value becomes once written and read back: keys stably sorted, bytes as base64 strings,
      one-entry `$f` maps as the doubles they stand for. */
  function Norm(v: AnyValue): AnyValue
    decreases v, 1
  {
    match v
    case Bytes(bs) => Str(Base64.Encode(bs))
    case Array(items) => Array(NormItems(items))
    case Map(entries) => SentinelOrMap(Sort(KeyLe, NormEntries(entries)))
    case _ => v
  }

  function NormItems(items: seq<AnyValue>): seq<AnyValue>
    decreases items, 0
  {
    if items == [] then [] else [Norm(items[0])] + NormItems(items[1..])
  }

  function NormEntries(entries: seq<Entry>): seq<Entry>
    decreases entries, 0
  {
    if entries == [] then []
    else [Entry(entries[0].key, Norm(entries[0].value))] + NormEntries(entries[1..])
  }

  /** The nesting of a value fits under the reader's budget; a non-finite double nests once. */
  predicate Fits(v: AnyValue, depth: nat) {
    match v
    case Dbl(d) => d.Finite? || depth > 1
    case Array(items) => depth > 1 && forall i :: 0 <= i < |items| ==> Fits(items[i], depth - 1)
    case Map(entries) => depth > 1 && forall i :: 0 <= i < |entries| ==> Fits(entries[i].value, depth - 1)
    case _ => true
  }
}
