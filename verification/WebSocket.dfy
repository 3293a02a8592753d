/**
  * The WebSocket frame codec (crates/adapter-dsh/src/ws.rs), after sections 5.2, 5.3 and 5.5 of
  * RFC 6455. Bytes are numbers; a bit test on a byte is written as the division it is.
  */
module WebSocket {
  import opened Core

  const MAX_FRAME_BYTES: nat := 16 * 1024 * 1024
  const U64: nat := 0x1_0000_0000_0000_0000

  datatype Opcode = Continuation | TextMessage | Binary | Close | Ping | Pong

  function Code(op: Opcode): nat {
    match op
    case Continuation => 0
    case TextMessage => 1
    case Binary => 2
    case Close => 8
    case Ping => 9
    case Pong => 10
  }

  function OpcodeOf(code: nat): Option<Opcode> {
    if code == 0 then Some(Continuation)
    else if code == 1 then Some(TextMessage)
    else if code == 2 then Some(Binary)
    else if code == 8 then Some(Close)
    else if code == 9 then Some(Ping)
    else if code == 10 then Some(Pong)
    else None
  }

  predicate IsControl(op: Opcode) {
    op.Close? || op.Ping? || op.Pong?
  }

  datatype WsFrame = WsFrame(fin: bool, opcode: Opcode, payload: Text)

  datatype WsError =
    | TruncatedHeader | ReservedBits | UnknownOpcode | TruncatedLength | ExceedsCap
    | TruncatedMask | TruncatedPayload | InvalidControl

  // ---------- Masking ----------

  /** Exclusive or, bit by bit. */
  function Xor(a: nat, b: nat): nat
    decreases a + b
  {
    if a == 0 && b == 0 then 0 else (if a % 2 != b % 2 then 1 else 0) + 2 * Xor(a / 2, b / 2)
  }

  lemma {:induction false} XorIsAByte(a: nat, b: nat, k: nat)
    requires a < Power2(k) && b < Power2(k)
    ensures Xor(a, b) < Power2(k)
    decreases a + b
  {
    if !(a == 0 && b == 0) {
      XorIsAByte(a / 2, b / 2, k - 1);
    }
  }

  function Power2(k: nat): nat {
    if k == 0 then 1 else 2 * Power2(k - 1)
  }

  lemma {:induction false} XorTwice(a: nat, b: nat)
    ensures Xor(Xor(a, b), b) == a
    decreases a + b
  {
    if !(a == 0 && b == 0) {
      XorTwice(a / 2, b / 2);
      var x := Xor(a, b);
      assert x / 2 == Xor(a / 2, b / 2);
      assert (x % 2 != b % 2) <==> a % 2 == 1;
    }
  }

  function XorByte(a: Byte, b: Byte): Byte {
    assert Power2(8) == 256;
    XorIsAByte(a, b, 8);
    Xor(a, b)
  }

  type Key = k: Text | |k| == 4 witness [0, 0, 0, 0]

  function Masked(payload: Text, key: Key): (r: Text)
    ensures |r| == |payload| && forall i :: 0 <= i < |r| ==> r[i] == XorByte(payload[i], key[i % 4])
  {
    if payload == [] then []
    else
      var n := |payload| - 1;
      Masked(payload[..n], key) + [XorByte(payload[n], key[n % 4])]
  }

  lemma MaskingTwice(payload: Text, key: Key)
    ensures Masked(Masked(payload, key), key) == payload
  {
    forall i | 0 <= i < |payload|
      ensures XorByte(XorByte(payload[i], key[i % 4]), key[i % 4]) == payload[i]
    {
      XorTwice(payload[i], key[i % 4]);
    }
  }

  /** Masks the bytes from `start` on in place. */
  method MaskInPlace(buf: array<Byte>, start: nat, key: Key)
    requires start <= buf.Length
    modifies buf
    ensures buf[..start] == old(buf[..start]) && buf[start..] == Masked(old(buf[start..]), key)
  {
    hide XorByte;
    hide Masked;
    for i := 0 to buf.Length - start
      invariant forall j :: 0 <= j < start ==> buf[j] == old(buf[j])
      invariant forall j :: start <= j < start + i ==> buf[j] == XorByte(old(buf[j]), key[(j - start) % 4])
      invariant forall j :: start + i <= j < buf.Length ==> buf[j] == old(buf[j])
    {
      buf[start + i] := XorByte(buf[start + i], key[i % 4]);
    }
    ghost var was := old(buf[start..]);
    assert forall j :: 0 <= j < |was| ==> was[j] == old(buf[start + j]);
    assert forall j :: 0 <= j < |was| ==> buf[start..][j] == XorByte(was[j], key[j % 4]);
  }

  // ---------- Lengths ----------

  /** Big-endian in `k` bytes; a larger number loses its high bytes. */
  function Be(n: nat, k: nat): (r: Text)
    ensures |r| == k
    decreases k
  {
    if k == 0 then [] else Be(n / 256, k - 1) + [n % 256]
  }

  function FromBe(b: Text): nat {
    if b == [] then 0
    else
      var last: int := b[|b| - 1];
      FromBe(b[..|b| - 1]) * 256 + last
  }

  function Power256(k: nat): nat {
    if k == 0 then 1 else 256 * Power256(k - 1)
  }

  lemma {:induction false} LengthReadsBack(n: nat, k: nat)
    requires n < Power256(k)
    ensures FromBe(Be(n, k)) == n
    decreases k
  {
    if k > 0 {
      LengthReadsBack(n / 256, k - 1);
      assert Be(n, k)[..k - 1] == Be(n / 256, k - 1);
    }
  }

  lemma PowersOf256()
    ensures Power256(2) == 65536 && Power256(8) == U64
  {
    assert Power256(4) == 65536 * 65536;
  }

  // ---------- Encoding ----------

  const MASK_KEY: Key := [0x12, 0x34, 0x56, 0x78]

  function LengthField(n: nat, masked: bool): Text {
    var bit := if masked then 128 else 0;
    if n <= 125 then [bit + n]
    else if n <= 0xFFFF then [bit + 126] + Be(n, 2)
    else [bit + 127] + Be(n, 8)
  }

  function Encoded(payload: Text, op: Opcode, masked: bool, key: Key): Text {
    [128 + Code(op)] + LengthField(|payload|, masked) + (if masked then key else [])
      + (if masked then Masked(payload, key) else payload)
  }

  method EncodeHead(n: nat, op: Opcode, masked: bool) returns (out: Text)
    ensures out == [128 + Code(op)] + LengthField(n, masked)
  {
    hide Be;
    out := [128 + Code(op)];
    hide Code;
    var bit := if masked then 128 else 0;
    if n <= 125 {
      out := out + [bit + n];
    } else if n <= 0xFFFF {
      out := out + [bit + 126] + Be(n, 2);
    } else {
      out := out + [bit + 127] + Be(n, 8);
    }
  }

  /** The payload goes behind what is there and is masked in place. */
  method AppendMasked(head: Text, payload: Text, key: Key) returns (out: Text)
    ensures out == head + Masked(payload, key)
  {
    hide Masked;
    var start := |head|;
    var buf := new Byte[start + |payload|];
    forall i | 0 <= i < buf.Length {
      buf[i] := if i < start then head[i] else payload[i - start];
    }
    assert buf[..start] == head && buf[start..] == payload;
    MaskInPlace(buf, start, key);
    out := buf[..];
    assert out == buf[..start] + buf[start..];
  }

  method EncodeFrame(payload: Text, op: Opcode, masked: bool, key: Option<Key>) returns (out: Text)
    ensures out == Encoded(payload, op, masked, if key.Some? then key.value else MASK_KEY)
  {
    hide Masked;
    hide LengthField;
    out := EncodeHead(|payload|, op, masked);
    var k := if key.Some? then key.value else MASK_KEY;
    if masked {
      out := AppendMasked(out + k, payload, k);
    } else {
      out := out + payload;
    }
  }

  // ---------- Decoding ----------

  /** The length field in front of `input[2..]`: the length and how many bytes it took. */
  function DecodedLength(input: Text): Result<(nat, nat), WsError>
    requires |input| >= 2
  {
    var len7 := input[1] % 128;
    if len7 == 126 then
      if |input| < 4 then Err(TruncatedLength) else Ok((FromBe(input[2..4]), 2))
    else if len7 == 127 then
      if |input| < 10 then Err(TruncatedLength) else Ok((FromBe(input[2..10]), 8))
    else Ok((len7, 0))
  }

  function Decoded(input: Text): Result<WsFrame, WsError> {
    if |input| < 2 then Err(TruncatedHeader)
    else if input[0] / 16 % 8 != 0 then Err(ReservedBits)
    else if OpcodeOf(input[0] % 16).None? then Err(UnknownOpcode)
    else
      match DecodedLength(input)
      case Err(e) => Err(e)
      case Ok((n, extra)) => DecodedBody(input, input[0] >= 128, OpcodeOf(input[0] % 16).value, n, 2 + extra)
  }

  /** What follows a head that ends at `at` and announces `n` bytes. */
  function DecodedBody(input: Text, fin: bool, op: Opcode, n: nat, at: nat): Result<WsFrame, WsError>
    requires |input| >= 2
  {
    var masked := input[1] >= 128;
    var start := if masked then at + 4 else at;
    if n > MAX_FRAME_BYTES then Err(ExceedsCap)
    else if masked && |input| < at + 4 then Err(TruncatedMask)
    else if |input| < start + n then Err(TruncatedPayload)
    else if IsControl(op) && (!fin || n > 125) then Err(InvalidControl)
    else
      var payload := input[start..start + n];
      Ok(WsFrame(fin, op, if masked then Masked(payload, input[at..at + 4]) else payload))
  }

  /** The length, moving the offset past its bytes. */
  method DecodeLength(input: Text) returns (r: Result<(nat, nat), WsError>)
    requires |input| >= 2
    ensures r == DecodedLength(input)
  {
    hide FromBe;
    var n: int, offset := input[1] % 128, 2;
    if n == 126 {
      if |input| < offset + 2 {
        return Err(TruncatedLength);
      }
      n := FromBe(input[offset..offset + 2]);
      offset := offset + 2;
    } else if n == 127 {
      if |input| < offset + 8 {
        return Err(TruncatedLength);
      }
      n := FromBe(input[offset..offset + 8]);
      offset := offset + 8;
    }
    return Ok((n, offset - 2));
  }

  method Unmask(payload: Text, key: Key) returns (out: Text)
    ensures out == Masked(payload, key)
  {
    hide Masked;
    var buf := new Byte[|payload|];
    forall i | 0 <= i < |payload| {
      buf[i] := payload[i];
    }
    assert buf[0..] == payload;
    MaskInPlace(buf, 0, key);
    assert buf[..] == buf[0..];
    out := buf[..];
  }

  method DecodeBody(input: Text, fin: bool, op: Opcode, n: nat, at: nat) returns (r: Result<WsFrame, WsError>)
    requires |input| >= 2
    ensures r == DecodedBody(input, fin, op, n, at)
  {
    hide Masked;
    hide IsControl;
    if n > MAX_FRAME_BYTES {
      return Err(ExceedsCap);
    }
    var masked, offset := input[1] >= 128, at;
    if masked {
      if |input| < offset + 4 {
        return Err(TruncatedMask);
      }
      offset := offset + 4;
    }
    if |input| < offset + n {
      return Err(TruncatedPayload);
    }
    var payload := input[offset..offset + n];
    if masked {
      payload := Unmask(payload, input[at..at + 4]);
    }
    if IsControl(op) && (!fin || n > 125) {
      return Err(InvalidControl);
    }
    return Ok(WsFrame(fin, op, payload));
  }

  method DecodeFrame(input: Text) returns (r: Result<WsFrame, WsError>)
    ensures r == Decoded(input)
  {
    hide DecodedBody;
    hide DecodedLength;
    hide OpcodeOf;
    if |input| < 2 {
      return Err(TruncatedHeader);
    }
    var b0: int := input[0];
    if b0 / 16 % 8 != 0 {
      return Err(ReservedBits);
    }
    var fin, op := b0 >= 128, OpcodeOf(b0 % 16);
    if op.None? {
      return Err(UnknownOpcode);
    }
    var length := DecodeLength(input);
    if length.Err? {
      return Err(length.error);
    }
    r := DecodeBody(input, fin, op.value, length.value.0, 2 + length.value.1);
  }

  // ---------- Round trips ----------

  lemma FirstByte(op: Opcode)
    ensures var b := 128 + Code(op); b < 256 && b / 16 % 8 == 0 && OpcodeOf(b % 16) == Some(op)
  {
  }

  lemma SecondByte(n: nat, masked: bool)
    ensures var b: int := LengthField(n, masked)[0];
            && (b >= 128 <==> masked)
            && b % 128 == if n <= 125 then n else if n <= 0xFFFF then 126 else 127
  {
    hide Be;
  }

  /** The length field of an encoded frame reads back, in each of its three forms. */
  lemma LengthFieldReadsBack(first: Byte, n: nat, masked: bool, rest: Text)
    requires n < U64
    ensures var field := LengthField(n, masked);
            var input := [first] + field + rest;
            && (input[1] >= 128 <==> masked)
            && DecodedLength(input) == Ok((n, |field| - 1))
  {
    hide FromBe;
    hide Be;
    var field := LengthField(n, masked);
    var input := [first] + field + rest;
    SecondByte(n, masked);
    assert input[1] == field[0];
    PowersOf256();
    if 125 < n <= 0xFFFF {
      assert input[2..4] == Be(n, 2);
      LengthReadsBack(n, 2);
    } else if n > 0xFFFF {
      assert input[2..10] == Be(n, 8);
      LengthReadsBack(n, 8);
    }
    hide LengthField;
  }

  /** Where the parts of an encoded frame are. */
  lemma Layout(payload: Text, op: Opcode, masked: bool, key: Key, trailing: Text)
    ensures var at := 1 + |LengthField(|payload|, masked)|;
            var start := if masked then at + 4 else at;
            var input := Encoded(payload, op, masked, key) + trailing;
            && at >= 2 && |Encoded(payload, op, masked, key)| == start + |payload|
            && input[0] == 128 + Code(op)
            && (masked ==> input[at..at + 4] == key)
            && input[start..start + |payload|] == if masked then Masked(payload, key) else payload
  {
    hide Masked;
    hide Be;
  }

  lemma HeadReadsBack(payload: Text, op: Opcode, masked: bool, key: Key, trailing: Text)
    requires |payload| < U64
    ensures var input := Encoded(payload, op, masked, key) + trailing;
            && |input| >= 2 && (input[1] >= 128 <==> masked)
            && DecodedLength(input) == Ok((|payload|, |LengthField(|payload|, masked)| - 1))
  {
    hide Masked;
    hide LengthField;
    hide DecodedLength;
    var input := Encoded(payload, op, masked, key) + trailing;
    var rest := (if masked then key else []) + (if masked then Masked(payload, key) else payload) + trailing;
    assert input == [128 + Code(op)] + LengthField(|payload|, masked) + rest;
    LengthFieldReadsBack(128 + Code(op), |payload|, masked, rest);
    Layout(payload, op, masked, key, trailing);
  }

  predicate Encodable(payload: Text, op: Opcode) {
    |payload| <= MAX_FRAME_BYTES && (IsControl(op) ==> |payload| <= 125)
  }

  lemma BodyIs(input: Text, op: Opcode, payload: Text, at: nat)
    requires |input| >= 2
    requires var start := if input[1] >= 128 then at + 4 else at;
             && |input| >= start + |payload|
             && var sent := input[start..start + |payload|];
                payload == if input[1] >= 128 then Masked(sent, input[at..at + 4]) else sent
    ensures DecodedBody(input, true, op, |payload|, at)
         == if |payload| > MAX_FRAME_BYTES then Err(ExceedsCap)
            else if IsControl(op) && |payload| > 125 then Err(InvalidControl)
            else Ok(WsFrame(true, op, payload))
  {
    hide Masked;
    hide IsControl;
  }

  lemma HeadIs(input: Text, op: Opcode, n: nat, extra: nat)
    requires |input| >= 2 && input[0] == 128 + Code(op) && DecodedLength(input) == Ok((n, extra))
    ensures Decoded(input) == DecodedBody(input, true, op, n, 2 + extra)
  {
    FirstByte(op);
    hide Code;
    hide OpcodeOf;
    hide DecodedLength;
    hide DecodedBody;
  }

  lemma PayloadReadsBack(payload: Text, op: Opcode, masked: bool, key: Key, trailing: Text)
    ensures var at := 1 + |LengthField(|payload|, masked)|;
            var start := if masked then at + 4 else at;
            var input := Encoded(payload, op, masked, key) + trailing;
            && at >= 2 && |input| >= start + |payload| && input[0] == 128 + Code(op)
            && var sent := input[start..start + |payload|];
               payload == if masked then Masked(sent, input[at..at + 4]) else sent
  {
    hide Masked;
    hide LengthField;
    hide Encoded;
    hide Code;
    Layout(payload, op, masked, key, trailing);
    MaskingTwice(payload, key);
  }

  /** Decoding an encoded frame gives the payload back, whatever bytes follow and whatever the mask
      key, exactly when the payload is within the cap and a control frame is short. */
  lemma FrameRoundTrip(payload: Text, op: Opcode, masked: bool, key: Key, trailing: Text)
    requires |payload| < U64
    ensures Decoded(Encoded(payload, op, masked, key) + trailing)
         == if |payload| > MAX_FRAME_BYTES then Err(ExceedsCap)
            else if IsControl(op) && |payload| > 125 then Err(InvalidControl)
            else Ok(WsFrame(true, op, payload))
  {
    hide Masked;
    hide LengthField;
    hide DecodedLength;
    hide Decoded;
    hide OpcodeOf;
    hide Encoded;
    hide Code;
    hide DecodedBody;
    PayloadReadsBack(payload, op, masked, key, trailing);
    HeadReadsBack(payload, op, masked, key, trailing);
    var input, extra := Encoded(payload, op, masked, key) + trailing, |LengthField(|payload|, masked)| - 1;
    HeadIs(input, op, |payload|, extra);
    BodyIs(input, op, payload, 2 + extra);
  }

  lemma FrameReadsBackExactlyWhen(payload: Text, op: Opcode, masked: bool, key: Key, trailing: Text)
    requires |payload| < U64
    ensures Decoded(Encoded(payload, op, masked, key) + trailing) == Ok(WsFrame(true, op, payload)) <==>
            Encodable(payload, op)
  {
    FrameRoundTrip(payload, op, masked, key, trailing);
  }

  /** A cut in the header is found. */
  lemma CutHeaderIsRejected(payload: Text, op: Opcode, masked: bool, key: Key, n: nat)
    requires n < 1 + |LengthField(|payload|, masked)|
    ensures n <= |Encoded(payload, op, masked, key)| && Decoded(Encoded(payload, op, masked, key)[..n]).Err?
  {
    hide Masked;
    hide OpcodeOf;
    SecondByte(|payload|, masked);
    var input := Encoded(payload, op, masked, key)[..n];
    if n >= 2 {
      assert input[1] == LengthField(|payload|, masked)[0];
    }
    hide Encoded;
  }

  /** A frame cut anywhere is rejected. */
  lemma PrefixIsRejected(payload: Text, op: Opcode, masked: bool, key: Key, n: nat)
    requires |payload| < U64 && n < |Encoded(payload, op, masked, key)|
    ensures Decoded(Encoded(payload, op, masked, key)[..n]).Err?
  {
    hide Masked;
    hide LengthField;
    hide OpcodeOf;
    hide DecodedLength;
    var field := LengthField(|payload|, masked);
    if n < 1 + |field| {
      CutHeaderIsRejected(payload, op, masked, key, n);
    } else {
      var whole := Encoded(payload, op, masked, key);
      Layout(payload, op, masked, key, []);
      assert whole == [128 + Code(op)] + field + whole[1 + |field|..];
      hide Encoded;
      assert whole[..n] == [128 + Code(op)] + field + whole[1 + |field|..n];
      LengthFieldReadsBack(128 + Code(op), |payload|, masked, whole[1 + |field|..n]);
    }
  }

  /** A server text frame and a client text frame read back up to the cap. */
  lemma TextFramesReadBack(text: Text, trailing: Text)
    requires |text| < U64
    ensures Decoded(Encoded(text, TextMessage, false, MASK_KEY) + trailing) == Ok(WsFrame(true, TextMessage, text))
            <==> |text| <= MAX_FRAME_BYTES
    ensures Decoded(Encoded(text, TextMessage, true, MASK_KEY) + trailing) == Ok(WsFrame(true, TextMessage, text))
            <==> |text| <= MAX_FRAME_BYTES
  {
    FrameRoundTrip(text, TextMessage, false, MASK_KEY, trailing);
    FrameRoundTrip(text, TextMessage, true, MASK_KEY, trailing);
  }

  function EncodeCloseFrame(code: nat, reason: Text): Text
    requires code < 65536
  {
    Encoded(Be(code, 2) + reason, Close, false, MASK_KEY)
  }

  /** A close frame reads back, with its status code, exactly when the reason leaves room for it. */
  lemma CloseFrameReadsBackExactlyWhen(code: nat, reason: Text, trailing: Text)
    requires code < 65536 && |reason| + 2 < U64
    ensures Decoded(EncodeCloseFrame(code, reason) + trailing) == Ok(WsFrame(true, Close, Be(code, 2) + reason))
            <==> 2 + |reason| <= 125
    ensures FromBe((Be(code, 2) + reason)[..2]) == code && (Be(code, 2) + reason)[2..] == reason
  {
    FrameRoundTrip(Be(code, 2) + reason, Close, false, MASK_KEY, trailing);
    PowersOf256();
    LengthReadsBack(code, 2);
    assert (Be(code, 2) + reason)[..2] == Be(code, 2);
  }

  /** No accepted frame carries more than the cap, and no accepted control frame is fragmented or long. */
  lemma AcceptedIsBounded(input: Text)
    requires Decoded(input).Ok?
    ensures var f := Decoded(input).value;
            |f.payload| <= MAX_FRAME_BYTES && |f.payload| + 2 <= |input|
              && (IsControl(f.opcode) ==> f.fin && |f.payload| <= 125)
  {
    hide FromBe;
  }

  /** Clearing the top bit of a frame that is final makes the same frame unfinished, and a control frame
      invalid; it changes no error. */
  lemma UnfinishedReadsBack(input: Text)
    requires input != [] && input[0] >= 128
    ensures var r, r' := Decoded(input), Decoded(input[0 := input[0] - 128]);
            && (r.Err? ==> r' == r)
            && (r.Ok? ==> r.value.fin)
            && (r.Ok? && !IsControl(r.value.opcode) ==> r' == Ok(r.value.(fin := false)))
            && (r.Ok? && IsControl(r.value.opcode) ==> r' == Err(InvalidControl))
  {
    hide FromBe;
    hide Masked;
    hide OpcodeOf;
    var input' := input[0 := input[0] - 128];
    TopBit(input[0]);
    if |input| >= 2 {
      SameBehind(input, input');
      SameLength(input, input');
      hide DecodedLength;
    }
  }

  lemma SameBehind(input: Text, input': Text)
    requires |input'| == |input| >= 1 && forall i :: 1 <= i < |input| ==> input'[i] == input[i]
    ensures forall i, j :: 1 <= i <= j <= |input| ==> input'[i..j] == input[i..j]
  {
  }

  lemma SameLength(input: Text, input': Text)
    requires |input'| == |input| >= 2 && forall i :: 1 <= i < |input| ==> input'[i] == input[i]
    ensures DecodedLength(input') == DecodedLength(input)
  {
    hide FromBe;
    if |input| >= 4 {
      assert input'[2..4] == input[2..4];
    }
    if |input| >= 10 {
      assert input'[2..10] == input[2..10];
    }
  }

  lemma TopBit(b: Byte)
    requires b >= 128
    ensures (b - 128) % 16 == b % 16 && (b - 128) / 16 % 8 == b / 16 % 8
  {
  }
}
