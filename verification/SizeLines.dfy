/**
  * Size lines of chunks (crates/adapter-dsh/src/http.rs) as text: what UTF-8 is, told by the characters it
  * encodes, and which lines give which size.
  */
module SizeLines {
  import opened Core
  import opened Chunked

  // ---------- Characters ----------

  /** The scalar values of Unicode. */
  type Scalar = c: int | 0 <= c < 0xD800 || 0xE000 <= c < 0x110000 witness 0

  /** The bytes of a character in UTF-8, after section 3 of RFC 3629. */
  function Enc(c: Scalar): (r: Text)
    ensures 1 <= |r| <= 4
  {
    if c < 0x80 then [c]
    else if c < 0x800 then [0xC0 + c / 64, 0x80 + c % 64]
    else if c < 0x10000 then [0xE0 + c / 4096, 0x80 + c / 64 % 64, 0x80 + c % 64]
    else [0xF0 + c / 262144, 0x80 + c / 4096 % 64, 0x80 + c / 64 % 64, 0x80 + c % 64]
  }

  function EncAll(cs: seq<Scalar>): Text {
    if cs == [] then [] else Enc(cs[0]) + EncAll(cs[1..])
  }

  lemma EncIsOneChar(c: Scalar, rest: Text)
    ensures CharLength(Enc(c) + rest) == |Enc(c)|
  {
    var s := Enc(c) + rest;
    assert forall i :: 0 <= i < |Enc(c)| ==> s[i] == Enc(c)[i];
  }

  lemma TwoBytes(a: int, b: int) returns (c: Scalar)
    requires 0xC2 <= a < 0xE0 && 0x80 <= b < 0xC0
    ensures Enc(c) == [a, b]
  {
    c := (a - 0xC0) * 64 + (b - 0x80);
    assert c / 64 == a - 0xC0 && c % 64 == b - 0x80;
  }

  lemma ThreeBytes(a: int, b: int, d: int) returns (c: Scalar)
    requires 0xE0 <= a < 0xF0 && 0x80 <= b < 0xC0 && 0x80 <= d < 0xC0
    requires (a == 0xE0 ==> b >= 0xA0) && (a == 0xED ==> b < 0xA0)
    ensures Enc(c) == [a, b, d]
  {
    var high := (a - 0xE0) * 64 + (b - 0x80);
    var whole := high * 64 + (d - 0x80);
    assert whole / 64 == high && whole % 64 == d - 0x80;
    assert high / 64 == a - 0xE0 && high % 64 == b - 0x80;
    assert whole / 4096 == high / 64;
    c := whole;
  }

  lemma FourBytes(a: int, b: int, d: int, e: int) returns (c: Scalar)
    requires 0xF0 <= a < 0xF5 && 0x80 <= b < 0xC0 && 0x80 <= d < 0xC0 && 0x80 <= e < 0xC0
    requires (a == 0xF0 ==> b >= 0x90) && (a == 0xF4 ==> b < 0x90)
    ensures Enc(c) == [a, b, d, e]
  {
    var top := (a - 0xF0) * 64 + (b - 0x80);
    var high := top * 64 + (d - 0x80);
    var whole := high * 64 + (e - 0x80);
    assert whole / 64 == high && whole % 64 == e - 0x80;
    assert high / 64 == top && high % 64 == d - 0x80;
    assert top / 64 == a - 0xF0 && top % 64 == b - 0x80;
    assert whole / 4096 == high / 64 && whole / 262144 == top / 64;
    c := whole;
  }

  /** The scalar value of up to four bytes, each of which gives the bits behind its mark. */
  lemma ScalarOf(s: Text) returns (c: Scalar)
    requires s != [] && CharLength(s) == |s|
    ensures Enc(c) == s
  {
    if |s| == 1 {
      c := s[0];
    } else if |s| == 2 {
      c := TwoBytes(s[0], s[1]);
    } else if |s| == 3 {
      c := ThreeBytes(s[0], s[1], s[2]);
    } else {
      c := FourBytes(s[0], s[1], s[2], s[3]);
    }
  }

  lemma CharOf(s: Text) returns (c: Scalar)
    requires CharLength(s) > 0
    ensures s == Enc(c) + s[CharLength(s)..]
  {
    var n := CharLength(s);
    c := ScalarOf(s[..n]);
    assert s == s[..n] + s[n..];
  }

  lemma {:induction false} Utf8AfterChars(cs: seq<Scalar>, rest: Text)
    ensures Utf8(EncAll(cs) + rest) <==> Utf8(rest)
  {
    if cs == [] {
      assert EncAll(cs) + rest == rest;
    } else {
      var more := EncAll(cs[1..]) + rest;
      assert EncAll(cs) + rest == Enc(cs[0]) + more;
      EncIsOneChar(cs[0], more);
      Utf8AfterChars(cs[1..], rest);
      assert (Enc(cs[0]) + more)[|Enc(cs[0])|..] == more;
      hide Enc;
      hide CharLength;
    }
  }

  lemma {:induction false} CharsOf(s: Text) returns (cs: seq<Scalar>)
    requires Utf8(s)
    ensures s == EncAll(cs)
    decreases |s|
  {
    hide Enc;
    cs := [];
    if s != [] {
      var c := CharOf(s);
      var more := CharsOf(s[CharLength(s)..]);
      cs := [c] + more;
      assert cs[1..] == more;
    }
  }

  /** Exactly the encodings of characters are well-formed UTF-8. */
  lemma Utf8IsEncoded(s: Text)
    ensures Utf8(s) <==> exists cs: seq<Scalar> :: s == EncAll(cs)
  {
    if Utf8(s) {
      var cs := CharsOf(s);
    }
    forall cs: seq<Scalar> | s == EncAll(cs)
      ensures Utf8(s)
    {
      Utf8AfterChars(cs, []);
      assert EncAll(cs) + [] == s;
    }
  }

  // ---------- White space ----------

  /** The characters with the property White_Space. */
  predicate WhiteSpace(c: Scalar) {
    || 0x9 <= c <= 0xD || c == 0x20 || c == 0x85 || c == 0xA0 || c == 0x1680 || 0x2000 <= c <= 0x200A
    || c == 0x2028 || c == 0x2029 || c == 0x202F || c == 0x205F || c == 0x3000
  }

  predicate AllSpace(cs: seq<Scalar>) {
    forall i :: 0 <= i < |cs| ==> WhiteSpace(cs[i])
  }

  lemma SpaceOf(s: Text) returns (c: Scalar)
    requires (|s| == 1 && IsSpace(s[0])) || IsWideSpace(s)
    ensures WhiteSpace(c) && Enc(c) == s
  {
    c := ScalarOf(s);
  }

  lemma SpaceIsSpace(c: Scalar)
    requires WhiteSpace(c)
    ensures |Enc(c)| == 1 ==> IsSpace(Enc(c)[0])
    ensures |Enc(c)| > 1 ==> IsWideSpace(Enc(c)) && |Enc(c)| <= 3 && forall i :: 0 <= i < |Enc(c)| ==> Enc(c)[i] >= 128
    ensures |Enc(c)| == 3 ==> !IsWideSpace(Enc(c)[..2]) && !IsWideSpace(Enc(c)[1..])
    ensures SEMICOLON !in Enc(c)
  {
  }

  lemma LeadingOne(c: Scalar, rest: Text)
    requires WhiteSpace(c)
    ensures LeadingSpace(Enc(c) + rest) == |Enc(c)| && (Enc(c) + rest)[|Enc(c)|..] == rest
  {
    SpaceIsSpace(c);
    var e, s := Enc(c), Enc(c) + rest;
    hide Enc;
    hide IsWideSpace;
    assert s[0] == e[0] && s[..|e|] == e;
    if |e| == 3 {
      assert s[..2] == e[..2];
    }
  }

  lemma TrailingOne(front: Text, c: Scalar)
    requires WhiteSpace(c)
    ensures TrailingSpace(front + Enc(c)) == |Enc(c)| && (front + Enc(c))[..|front|] == front
  {
    SpaceIsSpace(c);
    var e, s := Enc(c), front + Enc(c);
    hide Enc;
    hide IsWideSpace;
    assert s[|s| - 1] == e[|e| - 1] && s[|s| - |e|..] == e;
    if |e| == 3 {
      assert s[|s| - 2..] == e[1..];
    }
  }

  lemma {:induction false} TrimsStart(cs: seq<Scalar>, rest: Text)
    requires AllSpace(cs) && LeadingSpace(rest) == 0
    ensures TrimStart(EncAll(cs) + rest) == rest
  {
    hide Enc;
    hide LeadingSpace;
    if cs == [] {
      assert EncAll(cs) + rest == rest;
    } else {
      var more := EncAll(cs[1..]) + rest;
      assert EncAll(cs) + rest == Enc(cs[0]) + more;
      LeadingOne(cs[0], more);
      TrimsStart(cs[1..], rest);
    }
  }

  lemma {:induction false} EncAllLast(cs: seq<Scalar>, c: Scalar)
    ensures EncAll(cs + [c]) == EncAll(cs) + Enc(c)
  {
    hide Enc;
    if cs == [] {
      assert cs + [c] == [c] && [c][1..] == [];
    } else {
      EncAllLast(cs[1..], c);
      assert (cs + [c])[1..] == cs[1..] + [c];
    }
  }

  lemma {:induction false} TrimsEnd(front: Text, cs: seq<Scalar>)
    requires AllSpace(cs) && TrailingSpace(front) == 0
    ensures TrimEnd(front + EncAll(cs)) == front
    decreases |cs|
  {
    hide Enc;
    hide TrailingSpace;
    if cs == [] {
      assert front + EncAll(cs) == front;
    } else {
      var n := |cs| - 1;
      assert cs == cs[..n] + [cs[n]];
      EncAllLast(cs[..n], cs[n]);
      hide EncAll;
      var less := front + EncAll(cs[..n]);
      assert front + EncAll(cs) == less + Enc(cs[n]);
      TrailingOne(less, cs[n]);
      TrimsEnd(front, cs[..n]);
    }
  }

  lemma {:induction false} TrimmedStart(s: Text) returns (cs: seq<Scalar>)
    ensures AllSpace(cs) && s == EncAll(cs) + TrimStart(s)
    decreases |s|
  {
    hide Enc;
    hide WhiteSpace;
    cs := [];
    var n := LeadingSpace(s);
    if n > 0 {
      var c := SpaceOf(s[..n]);
      hide LeadingSpace;
      var more := TrimmedStart(s[n..]);
      cs := [c] + more;
      assert cs[1..] == more;
      assert s == s[..n] + s[n..];
      Associative(Enc(c), EncAll(more), TrimStart(s[n..]));
      hide EncAll;
    }
  }

  lemma {:induction false} TrimmedEnd(s: Text) returns (cs: seq<Scalar>)
    ensures AllSpace(cs) && s == TrimEnd(s) + EncAll(cs)
    decreases |s|
  {
    hide Enc;
    hide WhiteSpace;
    cs := [];
    var n := TrailingSpace(s);
    if n > 0 {
      var rest := s[..|s| - n];
      var c := SpaceOf(s[|s| - n..]);
      hide TrailingSpace;
      var more := TrimmedEnd(rest);
      EncAllLast(more, c);
      hide EncAll;
      cs := more + [c];
      assert s == rest + s[|s| - n..];
      Associative(TrimEnd(rest), EncAll(more), Enc(c));
    }
  }

  lemma {:induction false} SpacesHaveNoSemicolon(cs: seq<Scalar>)
    requires AllSpace(cs)
    ensures SEMICOLON !in EncAll(cs)
  {
    if cs != [] {
      SpaceIsSpace(cs[0]);
      hide Enc;
      SpacesHaveNoSemicolon(cs[1..]);
    }
  }

  // ---------- Numbers ----------

  /** A hexadecimal digit and its value. */
  lemma HexDigitsAreSpelt(b: Byte, d: nat)
    ensures HexDigit(b) == Some(d) <==>
            || ('0' as int <= b <= '9' as int && d == b - '0' as int)
            || ('a' as int <= b <= 'f' as int && d == 10 + (b - 'a' as int))
            || ('A' as int <= b <= 'F' as int && d == 10 + (b - 'A' as int))
  {
  }

  lemma {:induction false} ValueHasDigits(s: Text)
    ensures HexValue(s).Some? <==> forall i :: 0 <= i < |s| ==> HexDigit(s[i]).Some?
  {
    if s != [] {
      var n := |s| - 1;
      ValueHasDigits(s[..n]);
      assert forall i :: 0 <= i < n ==> s[..n][i] == s[i];
    }
  }

  // ---------- Size lines ----------

  /** White space, perhaps a plus, hexadecimal digits of 64 bits, white space, and perhaps a semicolon with any
      text behind it. */
  predicate IsSizeLine(line: Text, n: nat, before: seq<Scalar>, sign: Text, digits: Text, behind: seq<Scalar>,
      extension: seq<Scalar>)
  {
    && line == EncAll(before) + (sign + digits) + EncAll(behind) + EncAll(extension)
    && AllSpace(before) && AllSpace(behind) && (sign == [] || sign == ['+' as int])
    && digits != [] && HexValue(digits) == Some(n) && n < U64
    && (extension == [] || extension[0] == ';' as int)
  }

  lemma SignAndDigits(sign: Text, digits: Text, n: nat)
    requires (sign == [] || sign == ['+' as int]) && digits != [] && HexValue(digits) == Some(n) && n < U64
    ensures var s := sign + digits;
            && (forall i :: 0 <= i < |s| ==> s[i] < 128 && !IsSpace(s[i]) && s[i] != SEMICOLON)
            && ParseHex(s) == Some(n)
  {
    ValueHasDigits(digits);
    var s := sign + digits;
    forall i | 0 <= i < |s|
      ensures s[i] < 128 && !IsSpace(s[i]) && s[i] != SEMICOLON
    {
      if i >= |sign| {
        assert s[i] == digits[i - |sign|];
        HexDigitIsPlain(digits[i - |sign|]);
      }
    }
    HexDigitIsPlain(digits[0]);
    hide HexValue;
    assert sign == [] ==> s == digits;
    assert sign != [] ==> s[1..] == digits;
  }

  lemma PlainEndsStay(s: Text)
    requires s != [] && forall i :: 0 <= i < |s| ==> s[i] < 128 && !IsSpace(s[i])
    ensures TrailingSpace(s) == 0 && forall rest: Text :: LeadingSpace(s + rest) == 0
  {
    hide IsSpace;
    if |s| >= 2 && IsWideSpace(s[|s| - 2..]) {
      WideSpaceIsNotPlain(s[|s| - 2..]);
    }
    if |s| >= 3 && IsWideSpace(s[|s| - 3..]) {
      WideSpaceIsNotPlain(s[|s| - 3..]);
    }
    forall rest: Text
      ensures LeadingSpace(s + rest) == 0
    {
      var t := s + rest;
      assert t[0] == s[0];
      if |t| >= 2 && IsWideSpace(t[..2]) {
        WideSpaceIsNotPlain(t[..2]);
      }
      if |t| >= 3 && IsWideSpace(t[..3]) {
        WideSpaceIsNotPlain(t[..3]);
      }
    }
  }

  /** Every such line gives its number. */
  lemma SizeLineGives(line: Text, n: nat, before: seq<Scalar>, sign: Text, digits: Text, behind: seq<Scalar>,
      extension: seq<Scalar>)
    requires IsSizeLine(line, n, before, sign, digits, behind, extension)
    ensures SizeOf(line) == Ok(n)
  {
    var number, ext := sign + digits, EncAll(extension);
    SignAndDigits(sign, digits, n);
    PlainEndsStay(number);
    LineIsUtf8(before, number, behind, extension);
    ExtensionStarts(extension);
    FrontIsTrimmed(before, number, behind, ext);
    hide *;
    SizeOfUnfolds(line);
  }

  lemma ExtensionStarts(extension: seq<Scalar>)
    requires extension == [] || extension[0] == ';' as int
    ensures EncAll(extension) == [] || EncAll(extension)[0] == SEMICOLON
  {
    if extension != [] {
      assert Enc(extension[0]) == [59];
    }
  }

  lemma NotInAny(a: Text, b: Text, c: Text)
    requires SEMICOLON !in a && SEMICOLON !in b && SEMICOLON !in c
    ensures forall i :: 0 <= i < |a + (b + c)| ==> (a + (b + c))[i] != SEMICOLON
  {
  }

  lemma {:induction false} FrontIsTrimmed(before: seq<Scalar>, number: Text, behind: seq<Scalar>, ext: Text)
    requires AllSpace(before) && AllSpace(behind) && (ext == [] || ext[0] == SEMICOLON) && SEMICOLON !in number
    requires TrailingSpace(number) == 0 && forall rest: Text :: LeadingSpace(number + rest) == 0
    ensures TrimEnd(TrimStart(BeforeSemicolon(EncAll(before) + number + EncAll(behind) + ext))) == number
  {
    SpacesHaveNoSemicolon(before);
    SpacesHaveNoSemicolon(behind);
    hide EncAll;
    hide LeadingSpace;
    hide TrailingSpace;
    hide BeforeSemicolon;
    hide AllSpace;
    hide TrimStart;
    hide TrimEnd;
    var tail := number + EncAll(behind);
    var front := EncAll(before) + tail;
    NotInAny(EncAll(before), number, EncAll(behind));
    BeforeSemicolonStops(front, ext);
    Regrouped(EncAll(before), number, EncAll(behind), ext);
    TrimsStart(before, tail);
    TrimsEnd(number, behind);
  }

  lemma SizeOfUnfolds(line: Text)
    ensures SizeOf(line) == if !Utf8(line) then Err(NotUtf8)
                            else
                              var size := ParseHex(TrimEnd(TrimStart(BeforeSemicolon(line))));
                              if size.None? then Err(BadSize) else Ok(size.value)
  {
  }

  lemma Regrouped(a: Text, b: Text, c: Text, d: Text)
    ensures a + b + c + d == a + (b + (c + d)) && a + b + c + d == (a + (b + c)) + d
  {
  }

  lemma {:induction false} LineIsUtf8(before: seq<Scalar>, number: Text, behind: seq<Scalar>, extension: seq<Scalar>)
    requires forall i :: 0 <= i < |number| ==> number[i] < 128
    ensures Utf8(EncAll(before) + number + EncAll(behind) + EncAll(extension))
  {
    assert Utf8([]);
    hide EncAll;
    hide Utf8;
    var ext := EncAll(extension);
    Utf8AfterChars(extension, []);
    assert ext + [] == ext;
    Utf8AfterChars(behind, ext);
    Utf8AfterPlain(number, EncAll(behind) + ext);
    Utf8AfterChars(before, number + (EncAll(behind) + ext));
    Regrouped(EncAll(before), number, EncAll(behind), ext);
  }

  lemma {:induction false} SplitAtSemicolon(s: Text) returns (ext: Text)
    ensures s == BeforeSemicolon(s) + ext && (ext == [] || ext[0] == SEMICOLON)
  {
    ext := s;
    if s != [] && s[0] != SEMICOLON {
      ext := SplitAtSemicolon(s[1..]);
      assert s == [s[0]] + s[1..];
    }
  }

  lemma NumberParts(s: Text) returns (sign: Text, digits: Text)
    requires ParseHex(s).Some?
    ensures s == sign + digits && (sign == [] || sign == ['+' as int])
    ensures digits != [] && HexValue(digits) == ParseHex(s) && ParseHex(s).value < U64
  {
    hide HexValue;
    if s != [] && s[0] == PLUS {
      sign, digits := [PLUS], s[1..];
    } else {
      sign, digits := [], s;
    }
  }

  /** And every line that gives a number is such a line. */
  lemma GivesSizeLine(line: Text)
      returns (before: seq<Scalar>, sign: Text, digits: Text, behind: seq<Scalar>, extension: seq<Scalar>)
    requires SizeOf(line).Ok?
    ensures IsSizeLine(line, SizeOf(line).value, before, sign, digits, behind, extension)
  {
    hide Enc;
    hide EncAll;
    hide WhiteSpace;
    hide HexValue;
    hide Utf8;
    var ext := SplitAtSemicolon(line);
    var front := BeforeSemicolon(line);
    hide BeforeSemicolon;
    before := TrimmedStart(front);
    behind := TrimmedEnd(TrimStart(front));
    var number := TrimEnd(TrimStart(front));
    hide TrimStart;
    hide TrimEnd;
    sign, digits := NumberParts(number);
    hide ParseHex;
    SignAndDigits(sign, digits, SizeOf(line).value);
    assert line == EncAll(before) + (number + (EncAll(behind) + ext));
    Utf8AfterChars(before, number + (EncAll(behind) + ext));
    Utf8AfterPlain(number, EncAll(behind) + ext);
    Utf8AfterChars(behind, ext);
    extension := CharsOf(ext);
    FirstOfText(extension);
    Regrouped(EncAll(before), number, EncAll(behind), ext);
  }

  lemma FirstOfText(cs: seq<Scalar>)
    ensures EncAll(cs) == [] <==> cs == []
    ensures cs != [] && EncAll(cs)[0] == SEMICOLON ==> cs[0] == ';' as int
  {
  }

  /** A line is refused as no text exactly when it encodes no characters. */
  lemma NotTextExactlyWhen(line: Text)
    ensures SizeOf(line) == Err(NotUtf8) <==> !exists cs: seq<Scalar> :: line == EncAll(cs)
    ensures SizeOf(line).Err? ==> SizeOf(line).error == NotUtf8 || SizeOf(line).error == BadSize
  {
    Utf8IsEncoded(line);
    hide Utf8;
    hide EncAll;
  }
}
