/** The OTel value model (crates/imbh-core/src/value.rs) and UTF-8 text. */
module Values {
  import opened Basics

  type i64 = x: int | -0x8000_0000_0000_0000 <= x < 0x8000_0000_0000_0000

  /** A double: a finite one is known only by its shortest decimal form. */
  datatype Double = Finite(decimal: string) | NaN | PosInf | NegInf

  datatype AnyValue =
    | Null
    | Str(text: string)
    | Int(i: i64)
    | Dbl(d: Double)
    | Bool(b: bool)
    | Bytes(bytes: seq<byte>)
    | Array(items: seq<AnyValue>)
    | Map(entries: seq<Entry>)

  datatype Entry = Entry(key: string, value: AnyValue)

  /** The value of the first pair with the key (`Attributes::get`). */
  function Find(pairs: seq<Entry>, key: string): Option<AnyValue> {
    if pairs == [] then None
    else if pairs[0].key == key then Some(pairs[0].value)
    else Find(pairs[1..], key)
  }
}

/** UTF-8 (RFC 3629): the bytes of a string and the strict reader `str::from_utf8`. */
module Utf8 {
  import opened Basics

  function EncodeChar(c: char): (bs: seq<byte>)
    ensures 1 <= |bs| <= 4
  {
    var n := c as int;
    if n < 0x80 then [n]
    else if n < 0x800 then [0xC0 + n / 0x40, 0x80 + n % 0x40]
    else if n < 0x1_0000 then [0xE0 + n / 0x1000, 0x80 + n / 0x40 % 0x40, 0x80 + n % 0x40]
    else [0xF0 + n / 0x4_0000, 0x80 + n / 0x1000 % 0x40, 0x80 + n / 0x40 % 0x40, 0x80 + n % 0x40]
  }

  predicate Trailing(b: byte) { 0x80 <= b < 0xC0 }

  /** What a byte holds above its marker. */
  function Low(b: byte, marker: int): int { b as int - marker }

  /** The bytes of a character, as the table in section 3 of RFC 3629 gives them. */
  lemma CharBytes(c: char)
    ensures var n, bs := c as int, EncodeChar(c);
      && (n < 0x80 ==> bs == [n])
      && (0x80 <= n < 0x800 ==>
            |bs| == 2 && 0xC0 <= bs[0] < 0xE0 && Trailing(bs[1]) && Low(bs[0], 0xC0) * 0x40 + Low(bs[1], 0x80) == n)
      && (0x800 <= n < 0x1_0000 ==>
            && |bs| == 3 && 0xE0 <= bs[0] < 0xF0 && Trailing(bs[1]) && Trailing(bs[2])
            && Low(bs[0], 0xE0) * 0x1000 + Low(bs[1], 0x80) * 0x40 + Low(bs[2], 0x80) == n)
      && (0x1_0000 <= n ==>
            && |bs| == 4 && 0xF0 <= bs[0] < 0xF8 && Trailing(bs[1]) && Trailing(bs[2]) && Trailing(bs[3])
            && Low(bs[0], 0xF0) * 0x4_0000 + Low(bs[1], 0x80) * 0x1000 + Low(bs[2], 0x80) * 0x40 + Low(bs[3], 0x80)
              == n)
  {
    var n := c as int;
    assert n / 0x40 == n / 0x1000 * 0x40 + n / 0x40 % 0x40;
    assert n / 0x1000 == n / 0x4_0000 * 0x40 + n / 0x1000 % 0x40;
  }

  function Encode(s: string): seq<byte> {
    if s == [] then [] else EncodeChar(s[0]) + Encode(s[1..])
  }

  predicate Continues(bs: seq<byte>, i: nat) {
    i < |bs| && 0x80 <= bs[i] < 0xC0
  }

  /** The six payload bits of a continuation byte. */
  function Tail(bs: seq<byte>, i: nat): int
    requires Continues(bs, i)
  {
    bs[i] - 0x80
  }

  predicate IsScalar(n: int) {
    0 <= n < 0xD800 || 0xE000 <= n < 0x11_0000
  }

  /** The first character and how many bytes it takes; overlong forms and surrogates are refused. */
  function DecodeChar(bs: seq<byte>): (r: Option<(char, nat)>)
    requires bs != []
    ensures r.Some? ==> 1 <= r.value.1 <= |bs|
  {
    var a: int := bs[0];
    if a < 0x80 then Some((a as char, 1))
    else if 0xC0 <= a < 0xE0 && Continues(bs, 1) then
      var n := (a - 0xC0) * 0x40 + Tail(bs, 1);
      if n >= 0x80 then Some((n as char, 2)) else None
    else if 0xE0 <= a < 0xF0 && Continues(bs, 1) && Continues(bs, 2) then
      var n := (a - 0xE0) * 0x1000 + Tail(bs, 1) * 0x40 + Tail(bs, 2);
      if n >= 0x800 && IsScalar(n) then Some((n as char, 3)) else None
    else if 0xF0 <= a < 0xF8 && Continues(bs, 1) && Continues(bs, 2) && Continues(bs, 3) then
      var n := (a - 0xF0) * 0x4_0000 + Tail(bs, 1) * 0x1000 + Tail(bs, 2) * 0x40 + Tail(bs, 3);
      if n >= 0x1_0000 && IsScalar(n) then Some((n as char, 4)) else None
    else None
  }

  function Decode(bs: seq<byte>): Option<string> {
    if bs == [] then Some([])
    else match DecodeChar(bs)
      case None => None
      case Some((c, n)) =>
        match Decode(bs[n..])
        case None => None
        case Some(rest) => Some([c] + rest)
  }

  lemma {:induction false} DecodeCharOfEncodeChar(c: char, rest: seq<byte>)
    ensures DecodeChar(EncodeChar(c) + rest) == Some((c, |EncodeChar(c)|))
  {
    var n, cs := c as int, EncodeChar(c);
    var bs := cs + rest;
    assert n as char == c;
    CharBytes(c);
    assert forall i | 0 <= i < |cs| :: bs[i] == cs[i];
    if n < 0x80 {
      assert bs[0] == n;
    } else if n < 0x800 {
      assert Continues(bs, 1);
    } else if n < 0x1_0000 {
      assert Continues(bs, 1) && Continues(bs, 2);
    } else {
      assert Continues(bs, 1) && Continues(bs, 2) && Continues(bs, 3);
    }
  }

  /** Every string survives the trip through its UTF-8 bytes. */
  lemma {:induction false} DecodeOfEncode(s: string)
    ensures Decode(Encode(s)) == Some(s)
  {
    if s != [] {
      var c := EncodeChar(s[0]);
      DecodeCharOfEncodeChar(s[0], Encode(s[1..]));
      assert Encode(s)[|c|..] == Encode(s[1..]);
      DecodeOfEncode(s[1..]);
      assert [s[0]] + s[1..] == s;
    }
  }
}
