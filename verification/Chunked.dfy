/** Undoing `Transfer-Encoding: chunked` (crates/imbh-mcp/src/proxy.rs; section 7.1 of RFC 9112). */
module Chunked {
  import opened Basics
  import opened Text
  import Utf8

  const CR: byte := 13
  const LF: byte := 10

  function FindCrlf(body: seq<byte>, i: nat): (r: Option<nat>)
    requires i <= |body|
    ensures r.Some? ==> i <= r.value && r.value + 1 < |body| && body[r.value] == CR && body[r.value + 1] == LF
    decreases |body| - i
  {
    if i + 1 >= |body| then None
    else if body[i] == CR && body[i + 1] == LF then Some(i)
    else FindCrlf(body, i + 1)
  }

  /** The part of a size line before its extensions. */
  function BeforeExtensions(line: string): string {
    line[..IndexFrom(line, ';', 0)]
  }

  /** The size a chunk line announces. */
  function ChunkSize(line: seq<byte>): Option<u64> {
    match Utf8.Decode(line)
    case None => None
    case Some(text) => ParseU64(Trim(BeforeExtensions(text)), 16)
  }

  /** What the front of the input holds: a chunk and the input after it, the last chunk, or neither. */
  datatype Front = Broken | LastChunk | Data(chunk: seq<byte>, rest: seq<byte>)

  function ReadFront(body: seq<byte>): (f: Front)
    ensures f.Data? ==> |f.chunk| + |f.rest| < |body|
    ensures f.LastChunk? ==> body != []
  {
    match FindCrlf(body, 0)
    case None => Broken
    case Some(end) =>
      match ChunkSize(body[..end])
      case None => Broken
      case Some(size) =>
        var rest := body[end + 2..];
        if size == 0 then LastChunk
        else if size + 2 > |rest| then Broken
        else Data(rest[..size], rest[size + 2..])
  }

  function DechunkFrom(body: seq<byte>, out: seq<byte>): Option<seq<byte>>
    decreases |body|
  {
    match ReadFront(body)
    case Broken => None
    case LastChunk => Some(out)
    case Data(chunk, rest) => DechunkFrom(rest, out + chunk)
  }

  function DechunkAll(body: seq<byte>): Option<seq<byte>> {
    DechunkFrom(body, [])
  }

  /** The reading half of the loop body: a size line, then that many bytes and a line end. */
  method NextChunk(input: seq<byte>) returns (f: Front)
    ensures f == ReadFront(input)
  {
    var body := input;
    var end := FindCrlf(body, 0);
    if end.None? {
      return Broken;
    }
    var size := ChunkSize(body[..end.value]);
    if size.None? {
      return Broken;
    }
    body := body[end.value + 2..];
    if size.value == 0 {
      return LastChunk;
    }
    if size.value > |body| {
      return Broken;
    }
    var chunk := body[..size.value];
    if size.value + 2 > |body| {
      return Broken;
    }
    f := Data(chunk, body[size.value + 2..]);
  }

  /** The loop: the remaining input strictly shrinks, so it ends on every input. */
  method Dechunk(input: seq<byte>) returns (r: Option<seq<byte>>)
    ensures r == DechunkAll(input)
  {
    var body, out: seq<byte> := input, [];
    while true
      invariant DechunkAll(input) == DechunkFrom(body, out)
      decreases |body|
    {
      var f := NextChunk(body);
      match f
      case Broken => return None;
      case LastChunk => return Some(out);
      case Data(chunk, rest) =>
        out := out + chunk;
        body := rest;
    }
  }

  /** The output is shorter than the input. */
  lemma {:induction false} OutputIsShorter(body: seq<byte>, out: seq<byte>)
    ensures DechunkFrom(body, out).Some? ==> |DechunkFrom(body, out).value| < |out| + |body|
    decreases |body|
  {
    var f := ReadFront(body);
    if f.Data? {
      OutputIsShorter(f.rest, out + f.chunk);
    }
  }

  // ----- chunked text

  /** A chunk as a sender may frame it: the size in any spelling, and extensions after a semicolon. */
  datatype Chunk = Chunk(data: seq<byte>, size: string, extension: string)

  /** Hexadecimal digits for `n`, upper or lower case, with any leading zeros. */
  predicate Spells(size: string, n: nat) {
    size != [] && Digits(size, 16) == Some(n)
  }

  predicate GoodChunk(c: Chunk) {
    0 < |c.data| <= U64_MAX && Spells(c.size, |c.data|) && GoodExtension(c.extension)
  }

  /** Nothing, or a semicolon and text without a carriage return. */
  predicate GoodExtension(ext: string) {
    (ext == [] || ext[0] == ';') && '\r' !in ext
  }

  function SizeLine(size: string, ext: string): seq<byte> {
    Utf8.Encode(size + ext)
  }

  function Framed(c: Chunk): seq<byte> {
    SizeLine(c.size, c.extension) + [CR, LF] + (c.data + [CR, LF])
  }

  function Body(chunks: seq<Chunk>): seq<byte> {
    if chunks == [] then [] else chunks[0].data + Body(chunks[1..])
  }

  /** The chunks, the last-chunk line, and whatever follows it. */
  function Encoded(chunks: seq<Chunk>, zero: string, ext: string, after: seq<byte>): seq<byte> {
    if chunks == [] then SizeLine(zero, ext) + [CR, LF] + after
    else Framed(chunks[0]) + Encoded(chunks[1..], zero, ext, after)
  }

  lemma {:induction false} NoStrayCr(s: string)
    requires '\r' !in s
    ensures CR !in Utf8.Encode(s)
  {
    if s != [] {
      assert s == [s[0]] + s[1..];
      NoStrayCr(s[1..]);
      assert CR !in Utf8.EncodeChar(s[0]);
    }
  }

  lemma {:induction false} CrlfAfter(line: seq<byte>, rest: seq<byte>, i: nat)
    requires CR !in line && i <= |line|
    ensures FindCrlf(line + [CR, LF] + rest, i) == Some(|line|)
    decreases |line| - i
  {
    var body := line + [CR, LF] + rest;
    if i < |line| {
      assert body[i] == line[i] && line[i] in line;
      CrlfAfter(line, rest, i + 1);
    }
  }

  predicate HexDigit(c: char) {
    '0' <= c <= '9' || 'a' <= c <= 'f' || 'A' <= c <= 'F'
  }

  lemma {:induction false} DigitsAreHex(s: string)
    requires Digits(s, 16).Some?
    ensures forall c :: c in s ==> HexDigit(c)
  {
    if s != [] {
      var n := |s| - 1;
      DigitsAreHex(s[..n]);
      assert s == s[..n] + [s[n]];
    }
  }

  lemma {:induction false} ReadSpelling(size: string, n: u64)
    requires Spells(size, n)
    ensures ParseU64(Trim(size), 16) == Some(n)
    ensures ';' !in size && '\r' !in size
  {
    DigitsAreHex(size);
    assert size[0] in size && size[|size| - 1] in size;
    TrimOfTrimmed(size);
    ParseOfDigits(size, n, 16);
  }

  lemma {:induction false} BeforeGoodExtension(size: string, ext: string)
    requires ';' !in size && GoodExtension(ext)
    ensures BeforeExtensions(size + ext) == size
  {
    if ext == [] {
      assert size + ext == size;
      IndexOfNone(size, ';');
    } else {
      assert size + ext == size + [';'] + ext[1..];
      IndexOfFirst(size, ';', ext[1..]);
    }
  }

  lemma {:induction false} ReadSizeLine(size: string, n: u64, ext: string)
    requires Spells(size, n) && GoodExtension(ext)
    ensures ChunkSize(SizeLine(size, ext)) == Some(n) && CR !in SizeLine(size, ext)
  {
    ReadSpelling(size, n);
    Utf8.DecodeOfEncode(size + ext);
    NoStrayCr(size + ext);
    BeforeGoodExtension(size, ext);
  }

  lemma {:induction false} ReadChunk(c: Chunk, rest: seq<byte>)
    requires GoodChunk(c)
    ensures ReadFront(Framed(c) + rest) == Data(c.data, rest)
  {
    var line := SizeLine(c.size, c.extension);
    var tail := c.data + [CR, LF] + rest;
    var body := line + [CR, LF] + tail;
    assert Framed(c) + rest == body;
    ReadSizeLine(c.size, |c.data|, c.extension);
    CrlfAfter(line, tail, 0);
    assert body[..|line|] == line && body[|line| + 2..] == tail;
    assert tail[..|c.data|] == c.data && tail[|c.data| + 2..] == rest;
  }

  lemma {:induction false} ReadLast(zero: string, ext: string, after: seq<byte>)
    requires Spells(zero, 0) && GoodExtension(ext)
    ensures ReadFront(SizeLine(zero, ext) + [CR, LF] + after) == LastChunk
  {
    var line := SizeLine(zero, ext);
    ReadSizeLine(zero, 0, ext);
    CrlfAfter(line, after, 0);
    assert (line + [CR, LF] + after)[..|line|] == line;
  }

  lemma {:induction false} DecodeChunks(chunks: seq<Chunk>, zero: string, ext: string, after: seq<byte>, out: seq<byte>)
    requires Spells(zero, 0) && GoodExtension(ext)
    requires forall i :: 0 <= i < |chunks| ==> GoodChunk(chunks[i])
    ensures DechunkFrom(Encoded(chunks, zero, ext, after), out) == Some(out + Body(chunks))
    decreases |chunks|
  {
    if chunks == [] {
      ReadLast(zero, ext, after);
      assert out + Body(chunks) == out;
    } else {
      ReadChunk(chunks[0], Encoded(chunks[1..], zero, ext, after));
      DecodeChunks(chunks[1..], zero, ext, after, out + chunks[0].data);
      ConcatAssociates(out, chunks[0].data, Body(chunks[1..]));
    }
  }

  /** For every split of a body into non-empty chunks, with any spelling of the sizes and any
      extensions, decoding gives back the body, whatever follows the last-chunk line. */
  lemma {:induction false} DechunkOfEncoded(chunks: seq<Chunk>, zero: string, ext: string, after: seq<byte>)
    requires Spells(zero, 0) && GoodExtension(ext)
    requires forall i :: 0 <= i < |chunks| ==> GoodChunk(chunks[i])
    ensures DechunkAll(Encoded(chunks, zero, ext, after)) == Some(Body(chunks))
  {
    DecodeChunks(chunks, zero, ext, after, []);
    assert [] + Body(chunks) == Body(chunks);
  }

  /** Every size can be spelled, so every body can be framed. */
  lemma {:induction false} ShowSpells(n: nat)
    ensures Spells(Show(n, 16), n)
  {
    ShowIsDigits(n, 16);
  }

  // ----- a truncated body is refused

  lemma {:induction false} NoCrlfYet(line: seq<byte>, rest: seq<byte>, n: nat, i: nat)
    requires CR !in line && i <= n <= |line| + 1
    ensures FindCrlf((line + [CR, LF] + rest)[..n], i) == None
    decreases n - i
  {
    var body := (line + [CR, LF] + rest)[..n];
    if i + 1 < n {
      assert body[i] == line[i] && line[i] in line;
      NoCrlfYet(line, rest, n, i + 1);
    }
  }

  lemma {:induction false} CutChunk(c: Chunk, rest: seq<byte>, n: nat)
    requires GoodChunk(c) && n < |Framed(c)|
    ensures ReadFront((Framed(c) + rest)[..n]) == Broken
  {
    var line := SizeLine(c.size, c.extension);
    var tail := c.data + [CR, LF] + rest;
    assert Framed(c) + rest == line + [CR, LF] + tail;
    ReadSizeLine(c.size, |c.data|, c.extension);
    if n <= |line| + 1 {
      NoCrlfYet(line, tail, n, 0);
    } else {
      var short := tail[..n - |line| - 2];
      var body := line + [CR, LF] + short;
      assert (Framed(c) + rest)[..n] == body;
      CrlfAfter(line, short, 0);
      assert body[..|line|] == line && body[|line| + 2..] == short;
    }
  }

  lemma {:induction false} CutLast(zero: string, ext: string, n: nat)
    requires Spells(zero, 0) && GoodExtension(ext) && n < |SizeLine(zero, ext)| + 2
    ensures ReadFront((SizeLine(zero, ext) + [CR, LF] + [])[..n]) == Broken
  {
    ReadSizeLine(zero, 0, ext);
    NoCrlfYet(SizeLine(zero, ext), [], n, 0);
  }

  lemma {:induction false} CutIsRefused(chunks: seq<Chunk>, zero: string, ext: string, n: nat, out: seq<byte>)
    requires Spells(zero, 0) && GoodExtension(ext)
    requires forall i :: 0 <= i < |chunks| ==> GoodChunk(chunks[i])
    requires n < |Encoded(chunks, zero, ext, [])|
    ensures DechunkFrom(Encoded(chunks, zero, ext, [])[..n], out) == None
    decreases |chunks|
  {
    if chunks == [] {
      CutLast(zero, ext, n);
    } else {
      var c, more := chunks[0], Encoded(chunks[1..], zero, ext, []);
      var size := |Framed(c)|;
      if n < size {
        CutChunk(c, more, n);
      } else {
        assert (Framed(c) + more)[..n] == Framed(c) + more[..n - size];
        ReadChunk(c, more[..n - size]);
        CutIsRefused(chunks[1..], zero, ext, n - size, out + c.data);
      }
    }
  }

  /** A body cut anywhere before the end of its last-chunk line is refused, never decoded in part. */
  lemma {:induction false} TruncatedIsRefused(chunks: seq<Chunk>, zero: string, ext: string, n: nat)
    requires Spells(zero, 0) && GoodExtension(ext)
    requires forall i :: 0 <= i < |chunks| ==> GoodChunk(chunks[i])
    requires n < |Encoded(chunks, zero, ext, [])|
    ensures DechunkAll(Encoded(chunks, zero, ext, [])[..n]) == None
  {
    CutIsRefused(chunks, zero, ext, n, []);
  }
}
