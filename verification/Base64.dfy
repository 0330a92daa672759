/** Standard padded base64 (section 4 of RFC 4648), as the `base64` crate's `STANDARD` engine does it. */
module Base64 {
  import opened Basics

  type sextet = x: int | 0 <= x < 64

  function Symbol(n: sextet): char {
    if n < 26 then ('A' as int + n) as char
    else if n < 52 then ('a' as int + (n - 26)) as char
    else if n < 62 then ('0' as int + (n - 52)) as char
    else if n == 62 then '+'
    else '/'
  }

  /** The alphabet of table 1 in section 4 of RFC 4648. */
  function Alphabet(): string {
    "ABCDEFGHIJKLMNOPQRSTUVWXYZ" + "abcdefghijklmnopqrstuvwxyz" + "0123456789" + "+/"
  }

  lemma UpperAt(n: nat)
    requires n < 26
    ensures "ABCDEFGHIJKLMNOPQRSTUVWXYZ"[n] == ('A' as int + n) as char
  {
  }

  lemma LowerAt(n: nat)
    requires n < 26
    ensures "abcdefghijklmnopqrstuvwxyz"[n] == ('a' as int + n) as char
  {
  }

  /** The symbols are the standard alphabet, in order. */
  lemma SymbolIs(n: sextet)
    ensures |Alphabet()| == 64 && Symbol(n) == Alphabet()[n]
  {
    if n < 26 {
      UpperAt(n);
    } else if n < 52 {
      LowerAt(n - 26);
    } else if n < 62 {
      assert "0123456789"[n - 52] == ('0' as int + (n - 52)) as char;
    }
  }

  function Value(c: char): (v: Option<sextet>)
    ensures v.Some? ==> Symbol(v.value) == c
  {
    if 'A' <= c <= 'Z' then Some(c as int - 'A' as int)
    else if 'a' <= c <= 'z' then Some(c as int - 'a' as int + 26)
    else if '0' <= c <= '9' then Some(c as int - '0' as int + 52)
    else if c == '+' then Some(62)
    else if c == '/' then Some(63)
    else None
  }

  lemma ValueOfSymbol(n: sextet)
    ensures Value(Symbol(n)) == Some(n) && Symbol(n) != '='
  {
  }

  function Encode(bs: seq<byte>): string {
    if bs == [] then []
    else if |bs| == 1 then [Symbol(bs[0] / 4), Symbol(bs[0] % 4 * 16), '=', '=']
    else if |bs| == 2 then
      [Symbol(bs[0] / 4), Symbol(bs[0] % 4 * 16 + bs[1] / 16), Symbol(bs[1] % 16 * 4), '=']
    else
      [Symbol(bs[0] / 4), Symbol(bs[0] % 4 * 16 + bs[1] / 16), Symbol(bs[1] % 16 * 4 + bs[2] / 64), Symbol(bs[2] % 64)]
        + Encode(bs[3..])
  }

  /** Strict: whole groups of four, padding only at the end, no stray bits under the padding. */
  function Decode(s: string): Option<seq<byte>> {
    if s == [] then Some([])
    else if |s| < 4 || Value(s[0]).None? || Value(s[1]).None? then None
    else
      var a, b := Value(s[0]).value, Value(s[1]).value;
      if s[2..] == "==" then
        if b % 16 == 0 then Some([a * 4 + b / 16]) else None
      else if Value(s[2]).None? then None
      else
        var c := Value(s[2]).value;
        if s[3..] == "=" then
          if c % 4 == 0 then Some([a * 4 + b / 16, b % 16 * 16 + c / 4]) else None
        else if Value(s[3]).None? then None
        else
          var d := Value(s[3]).value;
          match Decode(s[4..])
          case None => None
          case Some(rest) => Some([a * 4 + b / 16, b % 16 * 16 + c / 4, c % 4 * 64 + d] + rest)
  }

  /** Base64 text is plain ASCII without blanks. */
  lemma {:induction false} EncodeSymbols(bs: seq<byte>)
    ensures forall i :: 0 <= i < |Encode(bs)| ==> 0x20 < Encode(bs)[i] as int < 0x7F
  {
    if |bs| > 2 {
      EncodeSymbols(bs[3..]);
    }
  }

  lemma DecodeOne(a: byte)
    ensures Decode(Encode([a])) == Some([a])
  {
    ValueOfSymbol(a / 4);
    ValueOfSymbol(a % 4 * 16);
    assert Encode([a])[2..] == "==";
  }

  lemma DecodeTwo(a: byte, b: byte)
    ensures Decode(Encode([a, b])) == Some([a, b])
  {
    var bs, x := [a, b], a % 4 * 16 + b / 16;
    ValueOfSymbol(a / 4);
    ValueOfSymbol(x);
    ValueOfSymbol(b % 16 * 4);
    assert x / 16 == a % 4 && x % 16 == b / 16;
    assert bs[0] == a && bs[1] == b;
    assert Encode(bs) == [Symbol(a / 4), Symbol(x), Symbol(b % 16 * 4), '='];
    assert Encode(bs)[3..] == "=";
  }

  lemma DecodeThree(a: byte, b: byte, c: byte, s: string)
    requires Decode(s).Some?
    ensures Decode([Symbol(a / 4), Symbol(a % 4 * 16 + b / 16), Symbol(b % 16 * 4 + c / 64), Symbol(c % 64)] + s)
      == Some([a, b, c] + Decode(s).value)
  {
    var x, y := a % 4 * 16 + b / 16, b % 16 * 4 + c / 64;
    ValueOfSymbol(a / 4);
    ValueOfSymbol(x);
    ValueOfSymbol(y);
    ValueOfSymbol(c % 64);
    assert x / 16 == a % 4 && x % 16 == b / 16 && y / 4 == b % 16 && y % 4 == c / 64;
    var t := [Symbol(a / 4), Symbol(x), Symbol(y), Symbol(c % 64)] + s;
    assert t[4..] == s && t[3] == Symbol(c % 64);
    assert t[2..][0] == t[2] && t[3..][0] == t[3];
  }

  lemma {:induction false} EncodeThree(a: byte, b: byte, c: byte, rest: seq<byte>)
    ensures Encode([a, b, c] + rest)
      == [Symbol(a / 4), Symbol(a % 4 * 16 + b / 16), Symbol(b % 16 * 4 + c / 64), Symbol(c % 64)] + Encode(rest)
  {
    var bs := [a, b, c] + rest;
    assert bs[3..] == rest;
  }

  // ----- the bits

  predicate Spelled(s: string, n: nat) {
    n <= |s| && forall i :: 0 <= i < n ==> Value(s[i]).Some?
  }

  function Sextet(s: string, i: nat): int
    requires i < |s| && Value(s[i]).Some?
  {
    Value(s[i]).value
  }

  /** Three bytes are written as four symbols of six bits each, the first bits first. */
  lemma {:induction false} GroupOfThree(a: byte, b: byte, c: byte, rest: seq<byte>)
    ensures var s := Encode([a, b, c] + rest);
      && Spelled(s, 4) && s[4..] == Encode(rest)
      && Sextet(s, 0) * 262144 + Sextet(s, 1) * 4096 + Sextet(s, 2) * 64 + Sextet(s, 3) == a * 65536 + b * 256 + c
  {
    EncodeThree(a, b, c, rest);
    ValueOfSymbol(a / 4);
    ValueOfSymbol(a % 4 * 16 + b / 16);
    ValueOfSymbol(b % 16 * 4 + c / 64);
    ValueOfSymbol(c % 64);
    assert a == a / 4 * 4 + a % 4 && b == b / 16 * 16 + b % 16 && c == c / 64 * 64 + c % 64;
  }

  /** One or two last bytes are followed by zero bits up to a symbol, and by padding up to a group. */
  lemma {:induction false} LastGroup(a: byte, b: byte)
    ensures var s := Encode([a]);
      && Spelled(s, 2) && s[2..] == "==" && Sextet(s, 0) * 64 + Sextet(s, 1) == a * 16
    ensures var s := Encode([a, b]);
      && Spelled(s, 3) && s[3..] == "="
      && Sextet(s, 0) * 4096 + Sextet(s, 1) * 64 + Sextet(s, 2) == (a * 256 + b) * 4
  {
    ValueOfSymbol(a / 4);
    ValueOfSymbol(a % 4 * 16);
    ValueOfSymbol(a % 4 * 16 + b / 16);
    ValueOfSymbol(b % 16 * 4);
    assert a == a / 4 * 4 + a % 4 && b == b / 16 * 16 + b % 16;
    assert Encode([a]) == [Symbol(a / 4), Symbol(a % 4 * 16), '=', '='];
    assert Encode([a, b]) == [Symbol(a / 4), Symbol(a % 4 * 16 + b / 16), Symbol(b % 16 * 4), '='];
  }

  /** Decoding gives back every byte string. */
  lemma {:induction false} DecodeOfEncode(bs: seq<byte>)
    ensures Decode(Encode(bs)) == Some(bs)
  {
    if |bs| == 1 {
      assert bs == [bs[0]];
      DecodeOne(bs[0]);
    } else if |bs| == 2 {
      assert bs == [bs[0], bs[1]];
      DecodeTwo(bs[0], bs[1]);
    } else if |bs| > 2 {
      var a, b, c, rest := bs[0], bs[1], bs[2], bs[3..];
      DecodeOfEncode(rest);
      DecodeThree(a, b, c, Encode(rest));
      assert bs == [a, b, c] + rest;
      EncodeThree(a, b, c, rest);
    }
  }
}
