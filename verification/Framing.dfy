/**
  * The length-prefixed framing codec (crates/local-transport/src/framing.rs) over a reader that
  * delivers any number of bytes at a time, is interrupted, or times out.
  */
module Framing {
  import opened Core
  import Arithmetic

  const LENGTH_PREFIX_BYTES := 4
  const U32: nat := 0x1_0000_0000

  // ---------- The reader ----------

  /** What the next read does: hand over at most `1 + extra` bytes, be interrupted, or time out.
      When the schedule is used up every read hands over all it can. */
  datatype ReadEvent = Deliver(extra: nat) | Interrupt | Fail

  datatype ReadResult = Count(n: nat) | Interrupted | Failed

  function Min(a: nat, b: nat): nat {
    if a < b then a else b
  }

  class Reader {
    var data: Text
    var schedule: seq<ReadEvent>

    constructor (data: Text, schedule: seq<ReadEvent>)
      ensures this.data == data && this.schedule == schedule
    {
      this.data, this.schedule := data, schedule;
    }

    /** Copies bytes into `buf` from position `from` on; no bytes means the end of the data. */
    method Read(buf: array<Byte>, from: nat) returns (r: ReadResult)
      requires from < buf.Length
      modifies this, buf
      ensures schedule == if old(schedule) == [] then [] else old(schedule)[1..]
      ensures r.Interrupted? <==> old(schedule) != [] && old(schedule)[0].Interrupt?
      ensures r.Failed? <==> old(schedule) != [] && old(schedule)[0].Fail?
      ensures !r.Count? ==> data == old(data) && buf[..] == old(buf[..])
      ensures r.Count? ==>
                && r.n == Min(Min(|old(data)|, buf.Length - from),
                              if old(schedule) == [] then |old(data)| else 1 + old(schedule)[0].extra)
                && data == old(data)[r.n..]
                && buf[..from] == old(buf[..from]) && buf[from..from + r.n] == old(data)[..r.n]
    {
      if schedule != [] {
        var event := schedule[0];
        schedule := schedule[1..];
        if event.Interrupt? {
          return Interrupted;
        }
        if event.Fail? {
          return Failed;
        }
        r := Count(Min(Min(|data|, buf.Length - from), 1 + event.extra));
      } else {
        r := Count(Min(Min(|data|, buf.Length - from), |data|));
      }
      ghost var before := buf[..];
      for i := 0 to r.n
        invariant data == old(data) && schedule == if old(schedule) == [] then [] else old(schedule)[1..]
        invariant buf[..from] == before[..from] && buf[from..from + i] == data[..i]
      {
        buf[from + i] := data[i];
      }
      data := data[r.n..];
    }
  }

  // ---------- Filling a buffer ----------

  datatype Got = Got(bytes: Text, failed: bool, data: Text, schedule: seq<ReadEvent>)

  function ReadSome(data: Text, schedule: seq<ReadEvent>, want: nat): (g: Got)
    ensures |g.bytes| <= want && |g.bytes| + |g.data| == |data| && |g.schedule| <= |schedule|
    ensures g.failed ==> |g.schedule| < |schedule|
    decreases |schedule|, want
  {
    if want == 0 then Got([], false, data, schedule)
    else if schedule == [] then
      var n := Min(want, |data|);
      Got(data[..n], false, data[n..], [])
    else
      match schedule[0]
      case Interrupt => ReadSome(data, schedule[1..], want)
      case Fail => Got([], true, data, schedule[1..])
      case Deliver(extra) =>
        var n := Min(Min(|data|, want), 1 + extra);
        if n == 0 then Got([], false, data, schedule[1..])
        else
          var rest := ReadSome(data[n..], schedule[1..], want - n);
          rest.(bytes := data[..n] + rest.bytes)
  }

  lemma AllAtOnce(data: Text, want: nat)
    ensures var n := Min(want, |data|); ReadSome(data, [], want) == Got(data[..n], false, data[n..], [])
  {
  }

  lemma AllAtOnceInTwo(data: Text, want: nat)
    requires want > 0
    ensures var k := Min(|data|, want);
            var rest := ReadSome(data[k..], [], want - k);
            ReadSome(data, [], want) ==
              if k == 0 then Got([], false, data, []) else rest.(bytes := data[..k] + rest.bytes)
  {
    var k := Min(|data|, want);
    AllAtOnce(data, want);
    AllAtOnce(data[k..], want - k);
    hide ReadSome;
    assert Min(want - k, |data[k..]|) == 0;
    assert data[k..][..0] == [] && data[k..][0..] == data[k..] && data[..k] + [] == data[..k];
    assert k == 0 ==> data[0..] == data && data[..0] == [];
  }

  /** What one read does to the rest. */
  lemma {:induction false} ReadSomeUnfolds(data: Text, schedule: seq<ReadEvent>, want: nat)
    requires want > 0
    ensures var most := if schedule == [] || !schedule[0].Deliver? then |data| else 1 + schedule[0].extra;
            var k := Min(Min(|data|, want), most);
            var tail := if schedule == [] then [] else schedule[1..];
            var rest := ReadSome(data[k..], tail, want - k);
            ReadSome(data, schedule, want) ==
            if schedule != [] && schedule[0].Interrupt? then ReadSome(data, tail, want)
            else if schedule != [] && schedule[0].Fail? then Got([], true, data, tail)
            else if k == 0 then Got([], false, data, tail)
            else rest.(bytes := data[..k] + rest.bytes)
  {
    if schedule == [] {
      AllAtOnceInTwo(data, want);
      hide ReadSome;
    }
  }

  /** `g` is what is read in all, after `done` with `left` bytes still wanted. */
  predicate Pending(g: Got, done: Text, data: Text, schedule: seq<ReadEvent>, left: nat) {
    var rest := ReadSome(data, schedule, left);
    g == rest.(bytes := done + rest.bytes)
  }

  lemma PendingAtStart(data: Text, schedule: seq<ReadEvent>, want: nat)
    ensures Pending(ReadSome(data, schedule, want), [], data, schedule, want)
  {
    hide ReadSome;
    var g := ReadSome(data, schedule, want);
    assert [] + g.bytes == g.bytes;
  }

  lemma NothingWanted(data: Text, schedule: seq<ReadEvent>)
    ensures ReadSome(data, schedule, 0) == Got([], false, data, schedule)
  {
  }

  lemma {:induction false} PendingAfter(g: Got, done: Text, data: Text, schedule: seq<ReadEvent>, left: nat,
                     more: Text, data': Text, schedule': seq<ReadEvent>)
    requires Pending(g, done, data, schedule, left) && |more| <= left
    requires var rest := ReadSome(data', schedule', left - |more|);
             ReadSome(data, schedule, left) == rest.(bytes := more + rest.bytes)
    ensures Pending(g, done + more, data', schedule', left - |more|)
  {
    hide ReadSome;
    var rest := ReadSome(data', schedule', left - |more|);
    assert done + (more + rest.bytes) == (done + more) + rest.bytes;
  }

  lemma {:induction false} PendingAtEnd(g: Got, done: Text, data: Text, schedule: seq<ReadEvent>, left: nat,
      failed: bool, data': Text, schedule': seq<ReadEvent>)
    requires Pending(g, done, data, schedule, left)
    requires ReadSome(data, schedule, left) == Got([], failed, data', schedule')
    ensures g == Got(done, failed, data', schedule')
  {
    hide ReadSome;
    assert done + [] == done;
  }

  lemma PendingSame(g: Got, done: Text, data: Text, schedule: seq<ReadEvent>, left: nat, data': Text,
      schedule': seq<ReadEvent>)
    requires Pending(g, done, data, schedule, left)
             && ReadSome(data, schedule, left) == ReadSome(data', schedule', left)
    ensures Pending(g, done, data', schedule', left)
  {
    hide ReadSome;
  }

  /** One read of the filling loop. */
  method ReadOnce(reader: Reader, buf: array<Byte>, filled: nat) returns (r: ReadResult)
    requires filled < buf.Length
    modifies reader, buf
    ensures buf[..filled] == old(buf[..filled])
    ensures |reader.schedule| <= |old(reader.schedule)| && (!r.Count? ==> |reader.schedule| < |old(reader.schedule)|)
    ensures var was := ReadSome(old(reader.data), old(reader.schedule), buf.Length - filled);
            match r
            case Interrupted => was == ReadSome(reader.data, reader.schedule, buf.Length - filled)
            case Failed => was == Got([], true, reader.data, reader.schedule)
            case Count(k) =>
              && filled + k <= buf.Length
              && if k == 0 then was == Got([], false, reader.data, reader.schedule)
                 else
                   var rest := ReadSome(reader.data, reader.schedule, buf.Length - filled - k);
                   was == rest.(bytes := buf[filled..filled + k] + rest.bytes)
  {
    hide ReadSome;
    ReadSomeUnfolds(reader.data, reader.schedule, buf.Length - filled);
    ghost var before := buf[..];
    r := reader.Read(buf, filled);
    assert !r.Count? ==> buf[..][..filled] == before[..filled];
  }

  /** The loop that fills a buffer; `n` is none after an I/O error, which drops what was read. */
  method FillBuffer(reader: Reader, buf: array<Byte>) returns (n: Option<nat>)
    modifies reader, buf
    ensures var g := ReadSome(old(reader.data), old(reader.schedule), buf.Length);
            && reader.data == g.data && reader.schedule == g.schedule
            && (n.None? <==> g.failed)
            && (n.Some? ==> n.value == |g.bytes| && buf[..n.value] == g.bytes)
  {
    hide ReadSome;
    hide Pending;
    var filled := 0;
    ghost var g := ReadSome(reader.data, reader.schedule, buf.Length);
    ghost var done: Text, left := [], buf.Length;
    PendingAtStart(reader.data, reader.schedule, buf.Length);
    while filled < buf.Length
      invariant filled <= buf.Length && done == buf[..filled] && left == buf.Length - filled
      invariant Pending(g, done, reader.data, reader.schedule, left)
      decreases |reader.schedule|, buf.Length - filled
    {
      ghost var data, schedule := reader.data, reader.schedule;
      var r := ReadOnce(reader, buf, filled);
      match r {
        case Count(k) =>
          if k == 0 {
            PendingAtEnd(g, done, data, schedule, left, false, reader.data, reader.schedule);
            return Some(filled);
          }
          ghost var more := buf[filled..filled + k];
          PendingAfter(g, done, data, schedule, left, more, reader.data, reader.schedule);
          assert done + more == buf[..filled + k];
          left, done, filled := left - k, done + more, filled + k;
        case Interrupted =>
          PendingSame(g, done, data, schedule, left, reader.data, reader.schedule);
        case Failed =>
          PendingAtEnd(g, done, data, schedule, left, true, reader.data, reader.schedule);
          return None;
      }
    }
    NothingWanted(reader.data, reader.schedule);
    PendingAtEnd(g, done, reader.data, reader.schedule, 0, false, reader.data, reader.schedule);
    return Some(filled);
  }

  // ---------- Frames ----------

  /** A 32-bit length, low byte first. */
  function Le32(n: nat): (b: Text)
    requires n < U32
    ensures |b| == 4
  {
    [n % 256, n / 256 % 256, n / 65536 % 256, n / 16777216]
  }

  function FromLe32(b: Text): nat
    requires |b| == 4
  {
    var b0: int, b1: int, b2: int, b3: int := b[0], b[1], b[2], b[3];
    b0 + 256 * b1 + 65536 * b2 + 16777216 * b3
  }

  lemma LengthReadsBack(n: nat)
    requires n < U32
    ensures FromLe32(Le32(n)) == n
  {
    var a, b, c := n / 256, n / 65536, n / 16777216;
    Arithmetic.Quotient(n, 65536, a / 256, a % 256 * 256 + n % 256);
    Arithmetic.Quotient(n, 16777216, b / 256, b % 256 * 65536 + n % 65536);
  }

  /** The length is cast to 32 bits, so a longer one wraps. */
  function EncodeFrame(payload: Text): Text {
    Le32(|payload| % U32) + payload
  }

  datatype FrameError = Oversized(declared: nat, max: nat) | Truncated(expected: nat, got: nat)

  function EncodeFrameChecked(payload: Text, max: nat): Result<Text, FrameError> {
    if |payload| > max then Err(Oversized(|payload|, max)) else Ok(EncodeFrame(payload))
  }

  datatype FrameRead = Frame(payload: Text) | EndOfFrames | Broken(error: FrameError) | IoError

  datatype Reading = Reading(read: FrameRead, data: Text, schedule: seq<ReadEvent>)

  function ReadFrame(data: Text, schedule: seq<ReadEvent>, max: nat): (r: Reading)
    ensures |r.schedule| <= |schedule| && |r.data| <= |data|
    ensures r.read.IoError? ==> |r.schedule| < |schedule|
    ensures r.read.Frame? ==> |r.data| < |data|
  {
    var prefix := ReadSome(data, schedule, LENGTH_PREFIX_BYTES);
    if prefix.failed then Reading(IoError, prefix.data, prefix.schedule)
    else if prefix.bytes == [] then Reading(EndOfFrames, prefix.data, prefix.schedule)
    else if |prefix.bytes| < LENGTH_PREFIX_BYTES then
      Reading(Broken(Truncated(LENGTH_PREFIX_BYTES, |prefix.bytes|)), prefix.data, prefix.schedule)
    else
      var declared := FromLe32(prefix.bytes);
      if declared > max then Reading(Broken(Oversized(declared, max)), prefix.data, prefix.schedule)
      else
        var body := ReadSome(prefix.data, prefix.schedule, declared);
        Reading(if body.failed then IoError
                else if |body.bytes| < declared then Broken(Truncated(declared, |body.bytes|))
                else Frame(body.bytes),
                body.data, body.schedule)
  }

  method ReadFrameFrom(reader: Reader, max: nat) returns (r: FrameRead)
    modifies reader
    ensures Reading(r, reader.data, reader.schedule) == ReadFrame(old(reader.data), old(reader.schedule), max)
  {
    hide ReadSome;
    var prefix := new Byte[LENGTH_PREFIX_BYTES];
    var got := FillBuffer(reader, prefix);
    if got.None? {
      return IoError;
    }
    if got.value == 0 {
      return EndOfFrames;
    }
    if got.value < LENGTH_PREFIX_BYTES {
      return Broken(Truncated(LENGTH_PREFIX_BYTES, got.value));
    }
    assert prefix[..4] == prefix[..];
    var declared := FromLe32(prefix[..]);
    if declared > max {
      return Broken(Oversized(declared, max));
    }
    var payload := new Byte[declared];
    got := FillBuffer(reader, payload);
    if got.None? {
      return IoError;
    }
    if got.value < payload.Length {
      return Broken(Truncated(declared, got.value));
    }
    assert payload[..got.value] == payload[..];
    return Frame(payload[..]);
  }

  // ---------- Reading on ----------

  datatype Collected = Collected(frames: seq<Text>, end: FrameRead)

  /** Frames until something other than a frame; a timeout is read again. */
  function Collect(data: Text, schedule: seq<ReadEvent>, max: nat): Collected
    decreases |data| + |schedule|
  {
    var r := ReadFrame(data, schedule, max);
    match r.read
    case Frame(payload) =>
      var rest := Collect(r.data, r.schedule, max);
      rest.(frames := [payload] + rest.frames)
    case IoError => Collect(r.data, r.schedule, max)
    case _ => Collected([], r.read)
  }

  method ReadAll(reader: Reader, max: nat) returns (frames: seq<Text>, end: FrameRead)
    modifies reader
    ensures Collected(frames, end) == Collect(old(reader.data), old(reader.schedule), max)
  {
    hide ReadFrame;
    frames := [];
    ghost var all := Collect(reader.data, reader.schedule, max);
    while true
      invariant var rest := Collect(reader.data, reader.schedule, max);
                all == rest.(frames := frames + rest.frames)
      decreases |reader.data| + |reader.schedule|
    {
      ghost var data, schedule := reader.data, reader.schedule;
      var r := ReadFrameFrom(reader, max);
      assert ReadFrame(data, schedule, max) == Reading(r, reader.data, reader.schedule);
      if r.Frame? {
        ghost var rest := Collect(reader.data, reader.schedule, max);
        assert frames + ([r.payload] + rest.frames) == (frames + [r.payload]) + rest.frames;
        frames := frames + [r.payload];
      } else if !r.IoError? {
        assert frames + [] == frames;
        return frames, r;
      }
    }
  }

  // ---------- What the schedule cannot change ----------

  /** Decoding the bytes as they are, without a reader. */
  function DecodeOne(data: Text, max: nat): (r: (FrameRead, Text))
    ensures r.0.Frame? ==> |r.1| < |data|
    ensures !r.0.IoError?
  {
    if data == [] then (EndOfFrames, [])
    else if |data| < 4 then (Broken(Truncated(4, |data|)), [])
    else
      var declared, rest := FromLe32(data[..4]), data[4..];
      if declared > max then (Broken(Oversized(declared, max)), rest)
      else if |rest| < declared then (Broken(Truncated(declared, |rest|)), [])
      else (Frame(rest[..declared]), rest[declared..])
  }

  function Decode(data: Text, max: nat): Collected
    decreases |data|
  {
    var (read, data') := DecodeOne(data, max);
    if read.Frame? then
      var rest := Decode(data', max);
      rest.(frames := [read.payload] + rest.frames)
    else Collected([], read)
  }

  lemma Resplit(data: Text, k: nat, n: nat)
    requires k <= n <= |data|
    ensures data[..k] + data[k..][..n - k] == data[..n] && data[k..][n - k..] == data[n..]
  {
  }

  /** The next bytes of the data, as many as wanted or as there are. */
  predicate IsExact(g: Got, data: Text, want: nat) {
    var n := Min(want, |data|);
    g.bytes == data[..n] && g.data == data[n..]
  }

  lemma DeliveryIsExact(data: Text, want: nat, k: nat, rest: Got)
    requires k <= want && k <= |data| && IsExact(rest, data[k..], want - k)
    ensures IsExact(rest.(bytes := data[..k] + rest.bytes), data, want)
  {
    Resplit(data, k, Min(want, |data|));
  }

  lemma EndIsExact(data: Text, schedule: seq<ReadEvent>, want: nat)
    requires want == 0 || data == []
    ensures IsExact(Got([], false, data, schedule), data, want)
  {
  }

  /** A buffer that is filled without an error holds the next bytes, however they arrived. */
  lemma {:induction false} ReadSomeIsExact(data: Text, schedule: seq<ReadEvent>, want: nat)
    requires !ReadSome(data, schedule, want).failed
    ensures IsExact(ReadSome(data, schedule, want), data, want)
    decreases |schedule|
  {
    if schedule == [] {
      AllAtOnce(data, want);
    } else if want == 0 {
      NothingWanted(data, schedule);
      EndIsExact(data, schedule, 0);
    } else {
      hide ReadSome;
      hide IsExact;
      ReadSomeUnfolds(data, schedule, want);
      var rest := schedule[1..];
      match schedule[0]
      case Interrupt => ReadSomeIsExact(data, rest, want);
      case Deliver(extra) =>
        var k := Min(Min(|data|, want), 1 + extra);
        if k == 0 {
          EndIsExact(data, rest, want);
        } else {
          ReadSomeIsExact(data[k..], rest, want - k);
          DeliveryIsExact(data, want, k, ReadSome(data[k..], rest, want - k));
        }
    }
  }

  /** So is every frame that is read without an I/O error, and so are the end and the framing errors. */
  lemma ReadFrameIsExact(data: Text, schedule: seq<ReadEvent>, max: nat)
    requires !ReadFrame(data, schedule, max).read.IoError?
    ensures var r := ReadFrame(data, schedule, max); (r.read, r.data) == DecodeOne(data, max)
  {
    var prefix := ReadSome(data, schedule, 4);
    ReadSomeIsExact(data, schedule, 4);
    if |data| >= 4 && FromLe32(data[..4]) <= max {
      ReadSomeIsExact(prefix.data, prefix.schedule, FromLe32(data[..4]));
    }
    hide ReadSome;
    hide FromLe32;
  }

  /** Every I/O error of the reading leaves the data as it was. */
  predicate LosesNothing(data: Text, schedule: seq<ReadEvent>, max: nat)
    decreases |data| + |schedule|
  {
    var r := ReadFrame(data, schedule, max);
    match r.read
    case Frame(_) => LosesNothing(r.data, r.schedule, max)
    case IoError => r.data == data && LosesNothing(r.data, r.schedule, max)
    case _ => true
  }

  lemma {:induction false} CollectIsExact(data: Text, schedule: seq<ReadEvent>, max: nat)
    requires LosesNothing(data, schedule, max)
    ensures Collect(data, schedule, max) == Decode(data, max)
    decreases |data| + |schedule|
  {
    hide ReadFrame;
    hide DecodeOne;
    var r := ReadFrame(data, schedule, max);
    if !r.read.IoError? {
      ReadFrameIsExact(data, schedule, max);
    }
    if r.read.IoError? || r.read.Frame? {
      CollectIsExact(r.data, r.schedule, max);
    }
  }

  predicate NoTimeout(schedule: seq<ReadEvent>) {
    forall i :: 0 <= i < |schedule| ==> !schedule[i].Fail?
  }

  lemma {:induction false} WithoutTimeoutNothingFails(data: Text, schedule: seq<ReadEvent>, want: nat)
    requires NoTimeout(schedule)
    ensures !ReadSome(data, schedule, want).failed && NoTimeout(ReadSome(data, schedule, want).schedule)
    decreases |schedule|
  {
    if want > 0 && schedule != [] {
      match schedule[0]
      case Interrupt => WithoutTimeoutNothingFails(data, schedule[1..], want);
      case Deliver(extra) =>
        var k := Min(Min(|data|, want), 1 + extra);
        if k > 0 {
          WithoutTimeoutNothingFails(data[k..], schedule[1..], want - k);
        }
    }
  }

  lemma {:induction false} NoTimeoutLosesNothing(data: Text, schedule: seq<ReadEvent>, max: nat)
    requires NoTimeout(schedule)
    ensures LosesNothing(data, schedule, max)
    decreases |data| + |schedule|
  {
    var prefix := ReadSome(data, schedule, 4);
    WithoutTimeoutNothingFails(data, schedule, 4);
    if |prefix.bytes| == 4 {
      WithoutTimeoutNothingFails(prefix.data, prefix.schedule, FromLe32(prefix.bytes));
    }
    var r := ReadFrame(data, schedule, max);
    assert !r.read.IoError? && NoTimeout(r.schedule);
    if r.read.Frame? {
      hide ReadFrame;
      NoTimeoutLosesNothing(r.data, r.schedule, max);
    }
  }

  // ---------- Round trips ----------

  predicate Fits(payload: Text, max: nat) {
    |payload| <= max && |payload| < U32
  }

  /** One frame reads back, whatever follows, exactly when its length fits the limit and 32 bits. */
  lemma FrameReadsBackExactlyWhen(payload: Text, rest: Text, max: nat)
    ensures DecodeOne(EncodeFrame(payload) + rest, max) == (Frame(payload), rest) <==> Fits(payload, max)
  {
    hide FromLe32;
    hide Le32;
    var n := |payload| % U32;
    LengthReadsBack(n);
    FrameStart(payload, rest);
    hide EncodeFrame;
    if |payload| < U32 {
      assert n == |payload|;
      assert (payload + rest)[..n] == payload && (payload + rest)[n..] == rest;
    } else {
      assert n < |payload|;
    }
  }

  lemma OversizedIsRefused(payload: Text, rest: Text, max: nat)
    requires max < |payload| < U32
    ensures DecodeOne(EncodeFrame(payload) + rest, max).0 == Broken(Oversized(|payload|, max))
  {
    hide FromLe32;
    hide Le32;
    LengthReadsBack(|payload|);
    FrameStart(payload, rest);
    hide EncodeFrame;
  }

  lemma FrameStart(payload: Text, rest: Text)
    ensures var data := EncodeFrame(payload) + rest;
            |data| >= 4 && data[..4] == Le32(|payload| % U32) && data[4..] == payload + rest
  {
    hide Le32;
  }

  /** What the checked encoder lets through reads back, short of a length that wraps; what it
      refuses the reader refuses with the same error. */
  lemma CheckedFrameReadsBack(payload: Text, rest: Text, max: nat)
    requires |payload| < U32
    ensures match EncodeFrameChecked(payload, max)
            case Ok(frame) => DecodeOne(frame + rest, max) == (Frame(payload), rest)
            case Err(e) => DecodeOne(EncodeFrame(payload) + rest, max).0 == Broken(e)
  {
    hide DecodeOne;
    hide EncodeFrame;
    FrameReadsBackExactlyWhen(payload, rest, max);
    if |payload| > max {
      OversizedIsRefused(payload, rest, max);
    }
  }

  function EncodeAll(payloads: seq<Text>): Text {
    if payloads == [] then [] else EncodeFrame(payloads[0]) + EncodeAll(payloads[1..])
  }

  lemma {:induction false} FramesDecode(payloads: seq<Text>, max: nat)
    requires forall i :: 0 <= i < |payloads| ==> Fits(payloads[i], max)
    ensures Decode(EncodeAll(payloads), max) == Collected(payloads, EndOfFrames)
  {
    if payloads != [] {
      FrameReadsBackExactlyWhen(payloads[0], EncodeAll(payloads[1..]), max);
      FramesDecode(payloads[1..], max);
      hide DecodeOne;
      hide EncodeFrame;
      assert [payloads[0]] + payloads[1..] == payloads;
    }
  }

  /** What a cut after `n` bytes leaves: that many whole frames, and how the reading ends. */
  function CutAt(payloads: seq<Text>, n: nat): Collected {
    if n == 0 || payloads == [] then Collected([], EndOfFrames)
    else if n < 4 then Collected([], Broken(Truncated(4, n)))
    else if n < 4 + |payloads[0]| then Collected([], Broken(Truncated(|payloads[0]|, n - 4)))
    else
      var rest := CutAt(payloads[1..], n - 4 - |payloads[0]|);
      rest.(frames := [payloads[0]] + rest.frames)
  }

  lemma CutInsideFrame(payload: Text, rest: Text, n: nat, max: nat)
    requires Fits(payload, max) && 0 < n < 4 + |payload|
    ensures DecodeOne((EncodeFrame(payload) + rest)[..n], max)
         == (Broken(if n < 4 then Truncated(4, n) else Truncated(|payload|, n - 4)), [])
  {
    hide FromLe32;
    var data := (EncodeFrame(payload) + rest)[..n];
    assert |data| == n;
    LengthReadsBack(|payload|);
    if n >= 4 {
      assert data[..4] == Le32(|payload|);
      assert |data[4..]| == n - 4;
    }
    hide Le32;
    hide EncodeFrame;
  }

  lemma {:induction false} CutFramesDecode(payloads: seq<Text>, n: nat, max: nat)
    requires forall i :: 0 <= i < |payloads| ==> Fits(payloads[i], max)
    requires n <= |EncodeAll(payloads)|
    ensures Decode(EncodeAll(payloads)[..n], max) == CutAt(payloads, n)
  {
    if payloads != [] && n > 0 {
      var first, rest := payloads[0], EncodeAll(payloads[1..]);
      var m := 4 + |first|;
      assert |EncodeFrame(first)| == m;
      if n < m {
        CutInsideFrame(first, rest, n, max);
        hide DecodeOne;
      } else {
        assert (EncodeFrame(first) + rest)[..n] == EncodeFrame(first) + rest[..n - m];
        FrameReadsBackExactlyWhen(first, rest[..n - m], max);
        CutFramesDecode(payloads[1..], n - m, max);
        hide DecodeOne;
        hide EncodeFrame;
      }
    }
  }

  lemma {:induction false} CutKeepsAPrefix(payloads: seq<Text>, n: nat)
    ensures CutAt(payloads, n).frames <= payloads
    ensures CutAt(payloads, n).end.EndOfFrames?
            || (CutAt(payloads, n).end.Broken? && CutAt(payloads, n).end.error.Truncated?)
  {
    if payloads != [] && n >= 4 + |payloads[0]| {
      CutKeepsAPrefix(payloads[1..], n - 4 - |payloads[0]|);
      var rest := CutAt(payloads[1..], n - 4 - |payloads[0]|);
      assert [payloads[0]] + rest.frames <= [payloads[0]] + payloads[1..] == payloads;
    }
  }

  /** One byte read, then a timeout: the byte is gone. */
  lemma LossyRead(data: Text, max: nat)
    requires data != []
    ensures ReadFrame(data, [Deliver(0), Fail], max) == Reading(IoError, data[1..], [])
  {
    hide ReadSome;
    ReadSomeUnfolds(data, [Deliver(0), Fail], 4);
    assert [Deliver(0), Fail][1..] == [Fail];
    ReadSomeUnfolds(data[1..], [Fail], 3);
    assert [Fail][1..] == [];
  }

  /** A timeout inside a frame loses the bytes already read: two empty frames then read as one. */
  lemma TimeoutInsideFrameLosesBytes()
    ensures Collect(EncodeAll([[], []]), [Deliver(0), Fail], 0) == Collected([[]], Broken(Truncated(4, 3)))
    ensures Decode(EncodeAll([[], []]), 0) == Collected([[], []], EndOfFrames)
  {
    FramesDecode([[], []], 0);
    hide EncodeAll;
    hide ReadFrame;
    hide Decode;
    hide CutAt;
    hide LosesNothing;
    var data := EncodeAll([[], []]);
    TwoFrames([], []);
    assert EncodeFrame([]) == [0, 0, 0, 0];
    hide EncodeFrame;
    assert data[1..] == data[..7];
    LossyRead(data, 0);
    NoTimeoutLosesNothing(data[1..], [], 0);
    CollectIsExact(data[1..], [], 0);
    CutFramesDecode([[], []], 7, 0);
    CutOfTwoEmpty();
  }

  lemma TwoFrames(a: Text, b: Text)
    ensures EncodeAll([a, b]) == EncodeFrame(a) + EncodeFrame(b)
  {
    hide EncodeFrame;
    assert [a, b][1..] == [b] && [b][1..] == [];
    assert EncodeAll([b]) == EncodeFrame(b) + EncodeAll([]);
  }

  lemma CutOfTwoEmpty()
    ensures CutAt([[], []], 7) == Collected([[]], Broken(Truncated(4, 3)))
  {
    var two: seq<Text> := [[], []];
    assert two[1..] == [[]];
    assert CutAt([[]], 3) == Collected([], Broken(Truncated(4, 3)));
  }
}
