/** Which bytes are a WebSocket frame and which frame they are, and why others are refused. */
module WebSocketAnswers {
  import opened Core
  import opened WebSocket

  /** Where the length ends: it is in the second byte, in the two after it or in the eight after it. */
  function LengthEnd(input: Text): nat
    requires |input| >= 2
  {
    if input[1] % 128 == 126 then 4 else if input[1] % 128 == 127 then 10 else 2
  }

  /** The bytes say that `n` bytes of payload follow. */
  predicate Announces(input: Text, n: nat) {
    && |input| >= 2 && |input| >= LengthEnd(input)
    && n == if LengthEnd(input) == 2 then input[1] % 128 else FromBe(input[2..LengthEnd(input)])
  }

  predicate IsMasked(input: Text)
    requires |input| >= 2
  {
    input[1] >= 128
  }

  function PayloadStart(input: Text): nat
    requires |input| >= 2
  {
    LengthEnd(input) + if IsMasked(input) then 4 else 0
  }

  /** The first byte is the final bit and the code of the operation, and nothing else. */
  predicate Heads(b: Byte, fin: bool, op: Opcode) {
    b == Code(op) + if fin then 128 else 0
  }

  /** Byte `i` of the payload, unmasked. */
  predicate CarriesAt(input: Text, f: WsFrame, i: nat)
    requires |input| >= 2 && i < |f.payload| && PayloadStart(input) + |f.payload| <= |input|
  {
    var sent := input[PayloadStart(input) + i];
    f.payload[i] == if IsMasked(input) then XorByte(sent, input[LengthEnd(input) + i % 4]) else sent
  }

  /** The bytes begin with this frame. */
  predicate BeginsWith(input: Text, f: WsFrame) {
    && |input| >= 2 && Heads(input[0], f.fin, f.opcode) && Announces(input, |f.payload|)
    && |f.payload| <= 16 * 1024 * 1024 && (IsControl(f.opcode) ==> f.fin && |f.payload| <= 125)
    && PayloadStart(input) + |f.payload| <= |input|
    && forall i :: 0 <= i < |f.payload| ==> CarriesAt(input, f, i)
  }

  lemma HeadDecides(b: Byte, fin: bool, op: Opcode)
    ensures Heads(b, fin, op) <==> b / 16 % 8 == 0 && OpcodeOf(b % 16) == Some(op) && (b >= 128 <==> fin)
  {
  }

  lemma LengthDecides(input: Text)
    requires |input| >= 2
    ensures var r := DecodedLength(input);
            && (r.Err? <==> |input| < LengthEnd(input)) && (r.Err? ==> r.error == TruncatedLength)
            && (r.Ok? ==> Announces(input, r.value.0) && 2 + r.value.1 == LengthEnd(input))
  {
    hide FromBe;
  }

  /** The payload that the bytes carry, if they are long enough. */
  lemma PayloadDecides(input: Text, f: WsFrame, n: nat)
    requires |input| >= 2 && PayloadStart(input) + n <= |input|
    ensures var start, at := PayloadStart(input), LengthEnd(input);
            var sent := input[start..start + n];
            var payload := if IsMasked(input) then Masked(sent, input[at..at + 4]) else sent;
            f.payload == payload <==> |f.payload| == n && forall i :: 0 <= i < n ==> CarriesAt(input, f, i)
  {
    hide XorByte;
    var start, at := PayloadStart(input), LengthEnd(input);
    var sent := input[start..start + n];
    var payload := if IsMasked(input) then Masked(sent, input[at..at + 4]) else sent;
    assert |payload| == n;
    forall i | 0 <= i < n && |f.payload| == n
      ensures CarriesAt(input, f, i) <==> f.payload[i] == payload[i]
    {
      assert sent[i] == input[start + i];
      if IsMasked(input) {
        assert input[at..at + 4][i % 4] == input[at + i % 4];
      }
    }
    hide Masked;
    hide CarriesAt;
  }

  /** Decoding gives a frame exactly when the bytes begin with it. */
  lemma DecodesExactlyWhen(input: Text, f: WsFrame)
    ensures Decoded(input) == Ok(f) <==> BeginsWith(input, f)
  {
    hide FromBe;
    hide Masked;
    hide CarriesAt;
    hide OpcodeOf;
    hide Code;
    if |input| >= 2 {
      HeadDecides(input[0], f.fin, f.opcode);
      hide Heads;
      LengthDecides(input);
      var length := DecodedLength(input);
      hide DecodedLength;
      if length.Ok? {
        var n := length.value.0;
        if PayloadStart(input) + n <= |input| {
          PayloadDecides(input, f, n);
        }
      }
    }
  }

  /** Why bytes are refused: each error exactly when. */
  lemma RefusedExactlyWhen(input: Text)
    ensures Decoded(input) == Err(TruncatedHeader) <==> |input| < 2
    ensures |input| >= 2 ==>
            var r := Decoded(input);
            var known := exists fin, op :: Heads(input[0], fin, op);
            && (r == Err(ReservedBits) <==> input[0] % 128 >= 16)
            && (r == Err(UnknownOpcode) <==> input[0] % 128 < 16 && !known)
            && (r == Err(TruncatedLength) <==> known && |input| < LengthEnd(input))
            && forall n: nat :: known && Announces(input, n) ==>
                 && (r == Err(ExceedsCap) <==> n > 16 * 1024 * 1024)
                 && (r == Err(TruncatedMask) <==>
                     n <= 16 * 1024 * 1024 && IsMasked(input) && |input| < PayloadStart(input))
                 && (r == Err(TruncatedPayload) <==>
                     n <= 16 * 1024 * 1024 && PayloadStart(input) <= |input| < PayloadStart(input) + n)
  {
    hide FromBe;
    hide Masked;
    if |input| >= 2 {
      HeadIsKnown(input[0]);
      hide Heads;
      hide OpcodeOf;
      LengthDecides(input);
      hide DecodedLength;
    }
  }

  lemma HeadIsKnown(b: Byte)
    ensures (exists fin, op :: Heads(b, fin, op)) <==> b % 128 < 16 && OpcodeOf(b % 16).Some?
    ensures b % 128 >= 16 <==> b / 16 % 8 != 0
  {
    if b % 128 < 16 && OpcodeOf(b % 16).Some? {
      assert Heads(b, b >= 128, OpcodeOf(b % 16).value);
    }
    forall fin, op | Heads(b, fin, op)
      ensures b % 128 < 16 && OpcodeOf(b % 16).Some?
    {
      HeadDecides(b, fin, op);
      hide OpcodeOf;
    }
    hide Heads;
    hide OpcodeOf;
  }
}
