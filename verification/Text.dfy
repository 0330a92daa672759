/** String pieces shared by the codecs: numerals, splitting, joining, trimming. */
module Text {
  import opened Basics

  // ----- numerals, as `Display`, `parse::<u64>` and `from_str_radix` have them

  type base = b: int | 2 <= b <= 16 witness 10

  function DigitChar(d: int): char
    requires 0 <= d < 16
  {
    if d < 10 then ('0' as int + d) as char else ('a' as int + (d - 10)) as char
  }

  function DigitValue(c: char, b: base): (d: Option<int>)
    ensures d.Some? ==> 0 <= d.value < b
  {
    var v := if '0' <= c <= '9' then c as int - '0' as int
             else if 'a' <= c <= 'f' then c as int - 'a' as int + 10
             else if 'A' <= c <= 'F' then c as int - 'A' as int + 10
             else 16;
    if v < b then Some(v) else None
  }

  function Show(n: nat, b: base): (s: string)
    ensures s != []
  {
    if n < b then [DigitChar(n)] else Shrinks(n, b); Show(n / b, b) + [DigitChar(n % b)]
  }

  lemma Shrinks(n: nat, b: base)
    requires n >= b
    ensures n / b < n && n % b < b
  {
  }

  /** The number a string of digits stands for, if that is what it is. */
  function Digits(s: string, b: base): Option<nat> {
    if s == [] then Some(0)
    else
      var n := |s| - 1;
      match (Digits(s[..n], b), DigitValue(s[n], b))
      case (Some(v), Some(d)) => Some(v * b + d)
      case _ => None
  }

  /** `u64::from_str_radix`: an optional plus sign, at least one digit, no overflow. */
  function ParseU64(s: string, b: base): Option<u64> {
    var digits := if s != [] && s[0] == '+' then s[1..] else s;
    if digits == [] then None
    else match Digits(digits, b)
      case Some(v) => if v <= U64_MAX then Some(v) else None
      case None => None
  }

  /** The characters numerals are written with. */
  predicate IsNumeral(c: char) {
    '0' <= c <= '9' || 'a' <= c <= 'f'
  }

  lemma DigitOfChar(d: int, b: base)
    requires 0 <= d < b
    ensures DigitValue(DigitChar(d), b) == Some(d)
  {
  }

  lemma {:induction false} DigitsSnoc(s: string, v: nat, d: int, b: base)
    requires Digits(s, b) == Some(v) && 0 <= d < b
    ensures Digits(s + [DigitChar(d)], b) == Some(v * b + d)
  {
    DigitOfChar(d, b);
    assert (s + [DigitChar(d)])[..|s|] == s;
  }

  lemma DivMod(n: nat, b: base)
    ensures n / b * b + n % b == n
  {
  }

  lemma {:induction false} ShowIsDigits(n: nat, b: base)
    ensures Digits(Show(n, b), b) == Some(n)
  {
    if n < b {
      DigitsSnoc([], 0, n, b);
      assert [] + [DigitChar(n)] == Show(n, b);
    } else {
      Shrinks(n, b);
      ShowIsDigits(n / b, b);
      DivMod(n, b);
      DigitsSnoc(Show(n / b, b), n / b, n % b, b);
    }
  }

  lemma {:induction false} ParseOfDigits(s: string, n: u64, b: base)
    requires s != [] && s[0] != '+' && Digits(s, b) == Some(n)
    ensures ParseU64(s, b) == Some(n)
  {
  }

  lemma {:induction false} ShowChars(n: nat, b: base)
    ensures forall c :: c in Show(n, b) ==> IsNumeral(c)
    ensures b <= 10 ==> forall c :: c in Show(n, b) ==> '0' <= c <= '9'
  {
    if n >= b {
      Shrinks(n, b);
      ShowChars(n / b, b);
    }
  }

  /** Printing then reading a number gives it back. */
  lemma ParseOfShow(n: u64, b: base)
    ensures ParseU64(Show(n, b), b) == Some(n)
  {
    ShowIsDigits(n, b);
    ShowChars(n, b);
    assert Show(n, b)[0] in Show(n, b);
    ParseOfDigits(Show(n, b), n, b);
  }

  // ----- splitting and joining

  /** Where `c` first occurs at or after `i`. */
  function IndexFrom(s: string, c: char, i: nat): (r: nat)
    requires i <= |s|
    ensures i <= r <= |s| && (r < |s| ==> s[r] == c) && forall k :: i <= k < r ==> s[k] != c
    decreases |s| - i
  {
    if i == |s| || s[i] == c then i else IndexFrom(s, c, i + 1)
  }

  /** `str::split` on a character: the pieces between the separators, empty ones included. */
  function Split(s: string, sep: char): seq<string> {
    var i := IndexFrom(s, sep, 0);
    if i == |s| then [s] else [s[..i]] + Split(s[i + 1..], sep)
  }

  function Join(pieces: seq<string>, sep: char): string {
    if pieces == [] then []
    else if |pieces| == 1 then pieces[0]
    else pieces[0] + [sep] + Join(pieces[1..], sep)
  }

  lemma IndexOfFirst(s: string, c: char, rest: string)
    requires c !in s
    ensures IndexFrom(s + [c] + rest, c, 0) == |s|
  {
    var t := s + [c] + rest;
    var i := IndexFrom(t, c, 0);
    assert t[|s|] == c;
    assert forall k :: 0 <= k < |s| ==> t[k] == s[k];
  }

  lemma IndexOfNone(s: string, c: char)
    requires c !in s
    ensures IndexFrom(s, c, 0) == |s|
  {
  }

  lemma {:induction false} SplitAfter(piece: string, sep: char, rest: string)
    requires sep !in piece
    ensures Split(piece + [sep] + rest, sep) == [piece] + Split(rest, sep)
  {
    var s := piece + [sep] + rest;
    IndexOfFirst(piece, sep, rest);
    assert s[..|piece|] == piece && s[|piece| + 1..] == rest;
  }

  /** Splitting what was joined gives back the pieces. */
  lemma {:induction false} SplitOfJoin(pieces: seq<string>, sep: char)
    requires pieces != [] && forall i :: 0 <= i < |pieces| ==> sep !in pieces[i]
    ensures Split(Join(pieces, sep), sep) == pieces
  {
    if |pieces| == 1 {
      IndexOfNone(pieces[0], sep);
    } else {
      SplitAfter(pieces[0], sep, Join(pieces[1..], sep));
      SplitOfJoin(pieces[1..], sep);
      assert pieces == [pieces[0]] + pieces[1..];
    }
  }

  // ----- trimming and case

  /** `char::is_whitespace`. */
  predicate IsSpace(c: char) {
    || 9 <= c as int <= 13 || c == ' ' || c as int == 0x85 || c as int == 0xA0 || c as int == 0x1680
    || 0x2000 <= c as int <= 0x200A || c as int == 0x2028 || c as int == 0x2029 || c as int == 0x202F
    || c as int == 0x205F || c as int == 0x3000
  }

  function TrimStart(s: string): string {
    if s != [] && IsSpace(s[0]) then TrimStart(s[1..]) else s
  }

  function TrimEnd(s: string): string {
    if s != [] && IsSpace(s[|s| - 1]) then TrimEnd(s[..|s| - 1]) else s
  }

  function Trim(s: string): string {
    TrimEnd(TrimStart(s))
  }

  /** Text with no space at either end is left alone. */
  lemma TrimOfTrimmed(s: string)
    requires s != [] ==> !IsSpace(s[0]) && !IsSpace(s[|s| - 1])
    ensures Trim(s) == s
  {
  }

  /** `to_ascii_lowercase`. */
  function LowerChar(c: char): char {
    if 'A' <= c <= 'Z' then (c as int + 32) as char else c
  }

  function Lower(s: string): string {
    seq(|s|, i requires 0 <= i < |s| => LowerChar(s[i]))
  }

  lemma LowerOfLower(s: string)
    requires forall c :: c in s ==> !('A' <= c <= 'Z')
    ensures Lower(s) == s
  {
    assert forall i :: 0 <= i < |s| ==> s[i] in s;
  }
}
