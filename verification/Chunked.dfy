/**
  * Chunked transfer decoding (crates/adapter-dsh/src/http.rs), after section 7.1 of RFC 9112.
  * Sizes are mathematical integers.
  */
module Chunked {
  import opened Core

  const MAX_BODY_BYTES: nat := 16 * 1024 * 1024
  const U64: nat := 0x1_0000_0000_0000_0000
  const CR: Byte := 13
  const LF: Byte := 10
  const CRLF: Text := [13, 10]
  const SEMICOLON: Byte := 59
  const PLUS: Byte := 43

  // ---------- Size lines ----------

  predicate CrLfAt(s: Text, i: nat) {
    i + 1 < |s| && s[i] == CR && s[i + 1] == LF
  }

  /** The first line end. */
  function FindCrLf(s: Text): (r: Option<nat>)
    ensures r.Some? ==> CrLfAt(s, r.value) && forall i :: 0 <= i < r.value ==> !CrLfAt(s, i)
    ensures r.None? ==> forall i: nat :: !CrLfAt(s, i)
  {
    FindFrom(s, 0)
  }

  function FindFrom(s: Text, from: nat): (r: Option<nat>)
    requires from <= |s|
    ensures r.Some? ==> from <= r.value && CrLfAt(s, r.value) && forall i :: from <= i < r.value ==> !CrLfAt(s, i)
    ensures r.None? ==> forall i: nat :: from <= i ==> !CrLfAt(s, i)
    decreases |s| - from
  {
    if |s| - from < 2 then None
    else if CrLfAt(s, from) then Some(from)
    else FindFrom(s, from + 1)
  }

  predicate Continues(s: Text, k: nat) {
    k < |s| && 128 <= s[k] < 192
  }

  /** The length of the well-formed character in front of `s`, or 0. */
  function CharLength(s: Text): (n: nat)
    ensures n <= |s|
  {
    if s == [] then 0
    else
      var b: int := s[0];
      if b < 128 then 1
      else if 194 <= b < 224 then if Continues(s, 1) then 2 else 0
      else if 224 <= b < 240 then
        if Continues(s, 1) && Continues(s, 2) && (b == 224 ==> s[1] >= 160) && (b == 237 ==> s[1] < 160) then 3 else 0
      else if 240 <= b < 245 then
        if Continues(s, 1) && Continues(s, 2) && Continues(s, 3) && (b == 240 ==> s[1] >= 144)
          && (b == 244 ==> s[1] < 144) then 4
        else 0
      else 0
  }

  predicate Utf8(s: Text) {
    s == [] || (CharLength(s) > 0 && Utf8(s[CharLength(s)..]))
  }

  /** The two- and three-byte encodings of white space. */
  predicate IsWideSpace(s: Text) {
    || s == [0xC2, 0x85] || s == [0xC2, 0xA0]
    || s == [0xE1, 0x9A, 0x80] || s == [0xE2, 0x81, 0x9F] || s == [0xE3, 0x80, 0x80]
    || (|s| == 3 && s[0] == 0xE2 && s[1] == 0x80
       && (0x80 <= s[2] <= 0x8A || s[2] == 0xA8 || s[2] == 0xA9 || s[2] == 0xAF))
  }

  predicate IsSpace(b: Byte) {
    9 <= b <= 13 || b == 32
  }

  function LeadingSpace(s: Text): (n: nat)
    ensures n <= |s|
  {
    if |s| >= 1 && IsSpace(s[0]) then 1
    else if |s| >= 2 && IsWideSpace(s[..2]) then 2
    else if |s| >= 3 && IsWideSpace(s[..3]) then 3
    else 0
  }

  function TrailingSpace(s: Text): (n: nat)
    ensures n <= |s|
  {
    if |s| >= 1 && IsSpace(s[|s| - 1]) then 1
    else if |s| >= 2 && IsWideSpace(s[|s| - 2..]) then 2
    else if |s| >= 3 && IsWideSpace(s[|s| - 3..]) then 3
    else 0
  }

  function TrimStart(s: Text): Text {
    if LeadingSpace(s) == 0 then s else TrimStart(s[LeadingSpace(s)..])
  }

  function TrimEnd(s: Text): Text {
    if TrailingSpace(s) == 0 then s else TrimEnd(s[..|s| - TrailingSpace(s)])
  }

  /** What stands in front of the first semicolon. */
  function BeforeSemicolon(s: Text): Text {
    if s == [] || s[0] == SEMICOLON then [] else [s[0]] + BeforeSemicolon(s[1..])
  }

  function HexDigit(b: Byte): Option<nat> {
    if IsDigit(b) then Some(b - 48)
    else if 97 <= b <= 102 then Some(b - 87)
    else if 65 <= b <= 70 then Some(b - 55)
    else None
  }

  /** The value of a text of hexadecimal digits, however large. */
  function HexValue(s: Text): Option<nat> {
    if s == [] then Some(0)
    else
      var n := |s| - 1;
      if HexDigit(s[n]).None? || HexValue(s[..n]).None? then None
      else Some(16 * HexValue(s[..n]).value + HexDigit(s[n]).value)
  }

  /** A number of 64 bits in base 16; a leading plus is allowed. */
  function ParseHex(s: Text): Option<nat> {
    var digits := if s != [] && s[0] == PLUS then s[1..] else s;
    if digits == [] || HexValue(digits).None? || HexValue(digits).value >= U64 then None else HexValue(digits)
  }

  datatype ChunkError = MissingSizeLine | NotUtf8 | BadSize | TruncatedChunk | ExceedsCap

  function SizeOf(line: Text): Result<nat, ChunkError> {
    if !Utf8(line) then Err(NotUtf8)
    else
      var size := ParseHex(TrimEnd(TrimStart(BeforeSemicolon(line))));
      if size.None? then Err(BadSize) else Ok(size.value)
  }

  // ---------- Decoding ----------

  function Decoded(out: Text, rest: Text): Result<Text, ChunkError>
    decreases |rest|
  {
    var end := FindCrLf(rest);
    if end.None? then Err(MissingSizeLine)
    else
      match SizeOf(rest[..end.value])
      case Err(e) => Err(e)
      case Ok(size) =>
        var rest' := rest[end.value + 2..];
        if size == 0 then Ok(out)
        else if |rest'| < size + 2 then Err(TruncatedChunk)
        else if |out| + size > MAX_BODY_BYTES then Err(ExceedsCap)
        else Decoded(out + rest'[..size], rest'[size + 2..])
  }

  method DecodeChunked(input: Text) returns (r: Result<Text, ChunkError>)
    ensures r == Decoded([], input)
    ensures r.Ok? ==> |r.value| <= MAX_BODY_BYTES
  {
    hide SizeOf;
    hide FindCrLf;
    var out: Text, rest := [], input;
    while true
      invariant Decoded([], input) == Decoded(out, rest) && |out| <= MAX_BODY_BYTES
      decreases |rest|
    {
      var end := FindCrLf(rest);
      if end.None? {
        return Err(MissingSizeLine);
      }
      var size := SizeOf(rest[..end.value]);
      if size.Err? {
        return Err(size.error);
      }
      rest := rest[end.value + 2..];
      if size.value == 0 {
        return Ok(out);
      }
      if |rest| < size.value + 2 {
        return Err(TruncatedChunk);
      }
      if |out| + size.value > MAX_BODY_BYTES {
        return Err(ExceedsCap);
      }
      out := out + rest[..size.value];
      rest := rest[size.value + 2..];
    }
  }

  // ---------- Encodings ----------

  /** A size line, the data, and the two bytes behind the data. */
  datatype Chunk = Chunk(line: Text, data: Text, end: Text)

  /** A line without a line end inside that gives the size. */
  predicate LineFor(line: Text, size: nat) {
    SizeOf(line) == Ok(size) && forall i: nat | i < |line| :: !CrLfAt(line, i)
  }

  predicate ValidChunk(c: Chunk) {
    LineFor(c.line, |c.data|) && |c.data| > 0 && |c.end| == 2
  }

  predicate ValidChunks(chunks: seq<Chunk>) {
    forall i :: 0 <= i < |chunks| ==> ValidChunk(chunks[i])
  }

  /** The chunks, a last line, and whatever follows it. */
  function Encoding(chunks: seq<Chunk>, last: Text, trailers: Text): Text {
    if chunks == [] then last + CRLF + trailers
    else chunks[0].line + CRLF + chunks[0].data + chunks[0].end + Encoding(chunks[1..], last, trailers)
  }

  function Body(chunks: seq<Chunk>): Text {
    if chunks == [] then [] else chunks[0].data + Body(chunks[1..])
  }

  /** The line end behind a line without one is the first. */
  lemma LineIsFound(line: Text, rest: Text)
    requires forall i: nat | i < |line| :: !CrLfAt(line, i)
    ensures var s := line + CRLF + rest; FindCrLf(s) == Some(|line|) && s[..|line|] == line && s[|line| + 2..] == rest
  {
    var s := line + CRLF + rest;
    assert CrLfAt(s, |line|);
    forall i: nat | i < |line|
      ensures !CrLfAt(s, i)
    {
      assert !CrLfAt(line, i);
      assert s[i] == line[i];
      assert i + 1 < |line| ==> s[i + 1] == line[i + 1];
      assert i + 1 == |line| ==> s[i + 1] == CR;
    }
  }

  lemma OneChunk(out: Text, c: Chunk, rest: Text)
    requires ValidChunk(c)
    ensures Decoded(out, c.line + CRLF + c.data + c.end + rest)
         == if |out| + |c.data| > MAX_BODY_BYTES then Err(ExceedsCap) else Decoded(out + c.data, rest)
  {
    hide SizeOf;
    var tail := c.data + c.end + rest;
    var s := c.line + CRLF + c.data + c.end + rest;
    assert s == c.line + CRLF + tail;
    LineIsFound(c.line, tail);
    hide FindCrLf;
    assert tail[..|c.data|] == c.data && tail[|c.data| + 2..] == rest;
  }

  /** Every encoding of a body within the cap decodes to the body, and of a longer one is refused:
      whatever the extensions, the trailers, and the two bytes behind each chunk. */
  lemma {:induction false} EncodingDecodes(out: Text, chunks: seq<Chunk>, last: Text, trailers: Text)
    requires ValidChunks(chunks) && LineFor(last, 0) && |out| <= MAX_BODY_BYTES
    ensures Decoded(out, Encoding(chunks, last, trailers))
         == if |out| + |Body(chunks)| > MAX_BODY_BYTES then Err(ExceedsCap) else Ok(out + Body(chunks))
    decreases |chunks|
  {
    hide SizeOf;
    if chunks == [] {
      LineIsFound(last, trailers);
      assert out + [] == out;
    } else {
      var c := chunks[0];
      assert ValidChunk(c);
      OneChunk(out, c, Encoding(chunks[1..], last, trailers));
      if |out| + |c.data| <= MAX_BODY_BYTES {
        EncodingDecodes(out + c.data, chunks[1..], last, trailers);
        assert out + (c.data + Body(chunks[1..])) == (out + c.data) + Body(chunks[1..]);
      }
    }
  }

  lemma FirstLine(s: Text)
    requires FindCrLf(s).Some?
    ensures var end := FindCrLf(s).value;
            end + 2 <= |s| && s == s[..end] + CRLF + s[end + 2..] && forall i: nat | i < end :: !CrLfAt(s[..end], i)
  {
    var end := FindCrLf(s).value;
    assert forall i: nat | i < end :: CrLfAt(s[..end], i) ==> CrLfAt(s, i);
  }

  lemma OneChunkMore(c: Chunk, chunks: seq<Chunk>, last: Text, trailers: Text)
    requires ValidChunk(c) && ValidChunks(chunks)
    ensures ValidChunks([c] + chunks) && Body([c] + chunks) == c.data + Body(chunks)
    ensures Encoding([c] + chunks, last, trailers)
            == c.line + CRLF + (c.data + c.end + Encoding(chunks, last, trailers))
  {
    hide ValidChunk;
    assert ([c] + chunks)[1..] == chunks;
    var rest := Encoding(chunks, last, trailers);
    assert c.line + CRLF + c.data + c.end + rest == c.line + CRLF + (c.data + c.end + rest);
  }

  lemma NoChunks(out: Text, last: Text, trailers: Text)
    ensures ValidChunks([]) && out + Body([]) == out && Encoding([], last, trailers) == last + CRLF + trailers
  {
  }

  lemma Reassembled(s: Text, i: nat, j: nat)
    requires i <= j <= |s|
    ensures s == s[..i] + s[i..j] + s[j..]
  {
  }

  lemma Associative(a: Text, b: Text, c: Text)
    ensures (a + b) + c == a + (b + c)
  {
  }

  /** And every input that decodes is such an encoding. */
  lemma {:induction false} DecodedIsAnEncoding(out: Text, rest: Text)
    returns (chunks: seq<Chunk>, last: Text, trailers: Text)
    requires Decoded(out, rest).Ok?
    ensures ValidChunks(chunks) && LineFor(last, 0) && rest == Encoding(chunks, last, trailers)
    ensures Decoded(out, rest) == Ok(out + Body(chunks))
    decreases |rest|
  {
    hide SizeOf;
    hide CrLfAt;
    hide FindCrLf;
    hide Encoding;
    hide Body;
    hide ValidChunks;
    FirstLine(rest);
    var end := FindCrLf(rest).value;
    var line, tail := rest[..end], rest[end + 2..];
    var size := SizeOf(line).value;
    if size == 0 {
      chunks, last, trailers := [], line, tail;
      NoChunks(out, last, trailers);
    } else {
      var c := Chunk(line, tail[..size], tail[size..size + 2]);
      assert ValidChunk(c);
      hide ValidChunk;
      hide LineFor;
      chunks, last, trailers := DecodedIsAnEncoding(out + c.data, tail[size + 2..]);
      OneChunkMore(c, chunks, last, trailers);
      Reassembled(tail, size, size + 2);
      Associative(out, c.data, Body(chunks));
      chunks := [c] + chunks;
    }
  }

  // ---------- Size lines in practice ----------

  function HexText(n: nat): (s: Text)
    ensures n > 0 ==> s != []
  {
    if n == 0 then [] else HexText(n / 16) + [if n % 16 < 10 then 48 + n % 16 else 87 + n % 16]
  }

  lemma {:induction false} HexTextReadsBack(n: nat)
    ensures HexValue(HexText(n)) == Some(n) && forall i :: 0 <= i < |HexText(n)| ==> HexDigit(HexText(n)[i]).Some?
  {
    if n > 0 {
      HexTextReadsBack(n / 16);
      var s := HexText(n);
      assert s[..|s| - 1] == HexText(n / 16);
    }
  }

  /** Hexadecimal digits are plain characters and no white space. */
  lemma HexDigitIsPlain(b: Byte)
    requires HexDigit(b).Some?
    ensures b < 128 && !IsSpace(b) && b != SEMICOLON && b != PLUS && b != CR
  {
  }

  lemma {:induction false} Utf8AfterPlain(plain: Text, rest: Text)
    requires forall i :: 0 <= i < |plain| ==> plain[i] < 128
    ensures Utf8(plain + rest) <==> Utf8(rest)
  {
    if plain == [] {
      assert plain + rest == rest;
    } else {
      Utf8AfterPlain(plain[1..], rest);
      assert (plain + rest)[1..] == plain[1..] + rest;
      assert CharLength(plain + rest) == 1;
    }
  }

  lemma {:induction false} BeforeSemicolonStops(digits: Text, rest: Text)
    requires (forall i :: 0 <= i < |digits| ==> digits[i] != SEMICOLON) && (rest == [] || rest[0] == SEMICOLON)
    ensures BeforeSemicolon(digits + rest) == digits
  {
    if digits == [] {
      assert digits + rest == rest;
    } else {
      BeforeSemicolonStops(digits[1..], rest);
      assert (digits + rest)[1..] == digits[1..] + rest;
    }
  }

  lemma WideSpaceIsNotPlain(s: Text)
    requires IsWideSpace(s)
    ensures |s| >= 2 && s[0] >= 128 && s[|s| - 1] >= 128
  {
  }

  lemma PlainEndsAreNoSpace(s: Text)
    requires s != [] && !IsSpace(s[0]) && !IsSpace(s[|s| - 1]) && s[0] < 128 && s[|s| - 1] < 128
    ensures TrimEnd(TrimStart(s)) == s
  {
    hide IsWideSpace;
    forall k: nat | 0 < k <= |s|
      ensures !IsWideSpace(s[..k]) && !IsWideSpace(s[|s| - k..])
    {
      if IsWideSpace(s[..k]) {
        WideSpaceIsNotPlain(s[..k]);
      }
      if IsWideSpace(s[|s| - k..]) {
        WideSpaceIsNotPlain(s[|s| - k..]);
      }
    }
  }

  /** A size line of hexadecimal digits, leading zeros allowed, and an extension behind a semicolon
      gives the size exactly when the extension is well-formed UTF-8 and the size fits 64 bits. */
  lemma SizeLineReadsExactlyWhen(digits: Text, extension: Text, n: nat)
    requires digits != [] && HexValue(digits) == Some(n)
    requires forall i :: 0 <= i < |digits| ==> HexDigit(digits[i]).Some?
    requires extension == [] || extension[0] == SEMICOLON
    ensures SizeOf(digits + extension) == Ok(n) <==> Utf8(extension) && n < U64
  {
    forall i | 0 <= i < |digits|
      ensures digits[i] < 128 && !IsSpace(digits[i]) && digits[i] != SEMICOLON && digits[i] != PLUS
    {
      HexDigitIsPlain(digits[i]);
    }
    Utf8AfterPlain(digits, extension);
    BeforeSemicolonStops(digits, extension);
    PlainEndsAreNoSpace(digits);
    hide Utf8;
    hide BeforeSemicolon;
    hide TrimEnd;
    hide TrimStart;
    hide HexValue;
  }

  /** The usual encoding of one chunk: its size in hexadecimal, an extension free of line ends, the
      data and a line end. */
  lemma UsualChunkIsValid(data: Text, extension: Text)
    requires 0 < |data| < U64 && Utf8(extension) && (extension == [] || extension[0] == SEMICOLON)
    requires CR !in extension
    ensures ValidChunk(Chunk(HexText(|data|) + extension, data, CRLF))
  {
    var digits := HexText(|data|);
    HexTextReadsBack(|data|);
    SizeLineReadsExactlyWhen(digits, extension, |data|);
    hide SizeOf;
    hide HexText;
    hide Utf8;
    var line := digits + extension;
    forall i: nat | i < |line|
      ensures !CrLfAt(line, i)
    {
      if i < |digits| {
        HexDigitIsPlain(digits[i]);
      } else {
        assert line[i] == extension[i - |digits|];
      }
    }
  }

  function UsualChunks(parts: seq<(Text, Text)>): (r: seq<Chunk>)
    ensures |r| == |parts|
    ensures forall i :: 0 <= i < |parts| ==> r[i] == Chunk(HexText(|parts[i].0|) + parts[i].1, parts[i].0, CRLF)
  {
    if parts == [] then []
    else [Chunk(HexText(|parts[0].0|) + parts[0].1, parts[0].0, CRLF)] + UsualChunks(parts[1..])
  }

  predicate UsualPart(part: (Text, Text)) {
    && 0 < |part.0| < U64 && Utf8(part.1) && CR !in part.1
    && (part.1 == [] || part.1[0] == SEMICOLON)
  }

  /** For every split of a body into non-empty chunks with extensions, and every trailer, decoding
      the encoding gives the body back when it is within the cap. */
  lemma BodyReadsBack(parts: seq<(Text, Text)>, trailers: Text)
    requires forall i :: 0 <= i < |parts| ==> UsualPart(parts[i])
    ensures var chunks := UsualChunks(parts);
            Decoded([], Encoding(chunks, [48], trailers))
            == if |Body(chunks)| > MAX_BODY_BYTES then Err(ExceedsCap) else Ok(Body(chunks))
  {
    var chunks := UsualChunks(parts);
    forall i | 0 <= i < |chunks|
      ensures ValidChunk(chunks[i])
    {
      assert UsualPart(parts[i]);
      UsualChunkIsValid(parts[i].0, parts[i].1);
    }
    LastLine();
    hide ValidChunk;
    EncodingDecodes([], chunks, [48], trailers);
    assert [] + Body(chunks) == Body(chunks);
  }

  lemma LastLine()
    ensures LineFor([48], 0)
  {
    assert HexValue([48]) == Some(0) by {
      assert HexValue([]) == Some(0);
    }
    SizeLineReadsExactlyWhen([48], [], 0);
    assert [48] + [] == [48];
  }

  /** `1;<byte 255>` is a size line with an extension free of line ends, and is refused. */
  lemma BadExtensionIsRefused(data: Byte, trailers: Text)
    ensures var line: Text := [49, SEMICOLON, 255];
            CR !in line && LF !in line
              && Decoded([], line + CRLF + [data] + CRLF + [48] + CRLF + trailers) == Err(NotUtf8)
  {
    var line: Text := [49, SEMICOLON, 255];
    assert !Utf8(line) by {
      assert line[1..] == [SEMICOLON, 255] && line[1..][1..] == [255];
      assert !Utf8([255]);
      assert !Utf8([SEMICOLON, 255]);
    }
    var rest := [data] + CRLF + [48] + CRLF + trailers;
    assert line + CRLF + [data] + CRLF + [48] + CRLF + trailers == line + CRLF + rest;
    assert forall i: nat | i < |line| :: !CrLfAt(line, i);
    LineIsFound(line, rest);
    hide FindCrLf;
    hide Utf8;
  }
}
