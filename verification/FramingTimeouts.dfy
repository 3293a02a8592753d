/**
  * When a framed stream reads back although the reader is interrupted and times out: exactly when
  * no timeout falls inside a frame. The condition looks at the schedule and the sizes of the
  * frames only.
  */
module FramingTimeouts {
  import opened Core
  import opened Framing

  // ---------- Timeouts and frame boundaries ----------

  /** What the reader asks for next, `got` bytes into the first frame: the rest of the length, then
      the rest of the payload. */
  function Wanted(payloads: seq<Text>, got: nat): nat {
    if got < 4 then 4 - got
    else if payloads != [] && got < 4 + |payloads[0]| then 4 + |payloads[0]| - got
    else 0
  }

  /** The frames still to come, and how far into the first, `k` bytes later. */
  function Onwards(payloads: seq<Text>, got: nat, k: nat): (seq<Text>, nat) {
    if payloads != [] && got + k >= 4 + |payloads[0]| then (payloads[1..], 0) else (payloads, got + k)
  }

  /** From `got` bytes into the first of the frames, with `left` bytes still to arrive, no timeout
      of the schedule falls inside a frame. */
  predicate TimeoutsBetweenFrames(schedule: seq<ReadEvent>, payloads: seq<Text>, got: nat, left: nat)
    decreases |schedule|
  {
    if schedule == [] then true
    else
      match schedule[0]
      case Interrupt => TimeoutsBetweenFrames(schedule[1..], payloads, got, left)
      case Fail => got == 0 && TimeoutsBetweenFrames(schedule[1..], payloads, got, left)
      case Deliver(extra) =>
        var k := Min(Min(left, Wanted(payloads, got)), 1 + extra);
        if k == 0 then true
        else
          var (rest, at) := Onwards(payloads, got, k);
          TimeoutsBetweenFrames(schedule[1..], rest, at, left - k)
  }

  /** What filling one buffer does to the condition. */
  ghost predicate AfterFilling(g: Got, payloads: seq<Text>, got: nat, want: nat) {
    if g.failed then got == 0 && g.bytes == [] && TimeoutsBetweenFrames(g.schedule, payloads, got, |g.data|)
    else if |g.bytes| < want then true
    else
      var (rest, at) := Onwards(payloads, got, want);
      TimeoutsBetweenFrames(g.schedule, rest, at, |g.data|)
  }

  lemma UnfoldWalk(schedule: seq<ReadEvent>, payloads: seq<Text>, got: nat, left: nat)
    requires schedule != []
    ensures TimeoutsBetweenFrames(schedule, payloads, got, left) <==>
            match schedule[0]
            case Interrupt => TimeoutsBetweenFrames(schedule[1..], payloads, got, left)
            case Fail => got == 0 && TimeoutsBetweenFrames(schedule[1..], payloads, got, left)
            case Deliver(extra) =>
              var k := Min(Min(left, Wanted(payloads, got)), 1 + extra);
              k == 0 ||
              var (rest, at) := Onwards(payloads, got, k);
              TimeoutsBetweenFrames(schedule[1..], rest, at, left - k)
  {
  }

  /** Delivering part of what is wanted leaves the rest wanted in the same frame. */
  lemma PartDelivered(payloads: seq<Text>, got: nat, k: nat)
    requires 0 < k < Wanted(payloads, got)
    ensures Onwards(payloads, got, k) == (payloads, got + k)
    ensures Wanted(payloads, got + k) == Wanted(payloads, got) - k
    ensures Onwards(payloads, got + k, Wanted(payloads, got) - k) == Onwards(payloads, got, Wanted(payloads, got))
  {
  }

  /** A read that fails, and one at the end of the data. */
  lemma AfterNothing(data: Text, tail: seq<ReadEvent>, payloads: seq<Text>, got: nat, want: nat)
    requires want > 0
    ensures AfterFilling(Got([], true, data, tail), payloads, got, want)
            <==> got == 0 && TimeoutsBetweenFrames(tail, payloads, got, |data|)
    ensures AfterFilling(Got([], false, data, tail), payloads, got, want)
  {
    hide TimeoutsBetweenFrames;
  }

  lemma AfterAll(data: Text, tail: seq<ReadEvent>, payloads: seq<Text>, got: nat, want: nat)
    requires want <= |data|
    ensures var (rest, at) := Onwards(payloads, got, want);
            AfterFilling(Got(data[..want] + [], false, data[want..], tail), payloads, got, want)
            <==> TimeoutsBetweenFrames(tail, rest, at, |data| - want)
  {
    hide TimeoutsBetweenFrames;
    hide Onwards;
  }

  lemma FillingWithoutSchedule(data: Text, payloads: seq<Text>, got: nat, want: nat)
    ensures AfterFilling(ReadSome(data, [], want), payloads, got, want)
  {
    AllAtOnce(data, want);
    hide ReadSome;
  }

  /** The condition agrees with filling the buffer from here on. */
  ghost predicate Agrees(data: Text, schedule: seq<ReadEvent>, payloads: seq<Text>, got: nat, want: nat) {
    TimeoutsBetweenFrames(schedule, payloads, got, |data|) <==>
      AfterFilling(ReadSome(data, schedule, want), payloads, got, want)
  }

  lemma PartWalks(data: Text, schedule: seq<ReadEvent>, payloads: seq<Text>, got: nat, want: nat, k: nat)
    requires schedule != [] && schedule[0].Deliver? && k == Min(Min(|data|, want), 1 + schedule[0].extra)
    requires 0 < k < want == Wanted(payloads, got) && Agrees(data[k..], schedule[1..], payloads, got + k, want - k)
    ensures Agrees(data, schedule, payloads, got, want)
  {
    hide ReadSome;
    hide AfterFilling;
    hide TimeoutsBetweenFrames;
    assert k <= |data|;
    hide Min;
    UnfoldWalk(schedule, payloads, got, |data|);
    PartDelivered(payloads, got, k);
    hide Wanted;
    hide Onwards;
    AfterMore(data, k, ReadSome(data[k..], schedule[1..], want - k), payloads, got, want);
    ReadSomeUnfolds(data, schedule, want);
  }

  lemma AllWalks(data: Text, schedule: seq<ReadEvent>, payloads: seq<Text>, got: nat, want: nat)
    requires schedule != [] && schedule[0].Deliver? && want == Min(Min(|data|, want), 1 + schedule[0].extra)
    requires 0 < want == Wanted(payloads, got)
    ensures Agrees(data, schedule, payloads, got, want)
  {
    hide ReadSome;
    hide AfterFilling;
    hide TimeoutsBetweenFrames;
    UnfoldWalk(schedule, payloads, got, |data|);
    hide Wanted;
    hide Onwards;
    ReadSomeUnfolds(data, schedule, want);
    NothingWanted(data[want..], schedule[1..]);
    AfterAll(data, schedule[1..], payloads, got, want);
  }

  lemma NothingWalks(data: Text, schedule: seq<ReadEvent>, payloads: seq<Text>, got: nat, want: nat)
    requires schedule != [] && 0 < want == Wanted(payloads, got)
             && (schedule[0].Fail? || (schedule[0].Deliver? && data == []))
    ensures Agrees(data, schedule, payloads, got, want)
  {
    hide ReadSome;
    hide AfterFilling;
    hide TimeoutsBetweenFrames;
    UnfoldWalk(schedule, payloads, got, |data|);
    hide Wanted;
    hide Onwards;
    ReadSomeUnfolds(data, schedule, want);
    AfterNothing(data, schedule[1..], payloads, got, want);
  }

  lemma {:induction false} FillingWalks(data: Text, schedule: seq<ReadEvent>, payloads: seq<Text>, got: nat)
    requires Wanted(payloads, got) > 0 && (payloads == [] ==> got == 0 && data == [])
    ensures Agrees(data, schedule, payloads, got, Wanted(payloads, got))
    decreases |schedule|
  {
    hide ReadSome;
    hide AfterFilling;
    var want := Wanted(payloads, got);
    if schedule == [] {
      FillingWithoutSchedule(data, payloads, got, want);
    } else if schedule[0].Interrupt? {
      FillingWalks(data, schedule[1..], payloads, got);
      ReadSomeUnfolds(data, schedule, want);
    } else if schedule[0].Fail? || data == [] {
      NothingWalks(data, schedule, payloads, got, want);
    } else {
      var k := Min(Min(|data|, want), 1 + schedule[0].extra);
      if k < want {
        PartDelivered(payloads, got, k);
        FillingWalks(data[k..], schedule[1..], payloads, got + k);
        hide Agrees;
        PartWalks(data, schedule, payloads, got, want, k);
      } else {
        AllWalks(data, schedule, payloads, got, want);
      }
    }
  }

  /** Bytes in front of a filling move its start. */
  lemma AfterMore(data: Text, k: nat, rest: Got, payloads: seq<Text>, got: nat, want: nat)
    requires 0 < k < want == Wanted(payloads, got) && k <= |data|
    ensures AfterFilling(rest.(bytes := data[..k] + rest.bytes), payloads, got, want)
            <==> AfterFilling(rest, payloads, got + k, want - k)
  {
    hide TimeoutsBetweenFrames;
    PartDelivered(payloads, got, k);
    hide Onwards;
    hide Wanted;
  }

  // ---------- Frame by frame ----------

  predicate AllFit(payloads: seq<Text>, max: nat) {
    forall i :: 0 <= i < |payloads| ==> Fits(payloads[i], max)
  }

  /** What is left of the data is its end, also after an error. */
  predicate LeavesTheEnd(g: Got, data: Text) {
    |g.bytes| <= |data| && g.data == data[|g.bytes|..]
  }

  lemma EndAfterDelivery(data: Text, k: nat, rest: Got)
    requires k <= |data| && LeavesTheEnd(rest, data[k..])
    ensures LeavesTheEnd(rest.(bytes := data[..k] + rest.bytes), data)
  {
    assert data[k..][|rest.bytes|..] == data[k + |rest.bytes|..];
  }

  lemma {:induction false} ReadSomeLeavesTheEnd(data: Text, schedule: seq<ReadEvent>, want: nat)
    ensures LeavesTheEnd(ReadSome(data, schedule, want), data)
    decreases |schedule|
  {
    hide ReadSome;
    if want == 0 {
      NothingWanted(data, schedule);
    } else if schedule == [] {
      AllAtOnce(data, want);
    } else {
      ReadSomeUnfolds(data, schedule, want);
      var tail := schedule[1..];
      match schedule[0]
      case Interrupt => ReadSomeLeavesTheEnd(data, tail, want);
      case Fail =>
      case Deliver(extra) =>
        var k := Min(Min(|data|, want), 1 + extra);
        if k > 0 {
          hide LeavesTheEnd;
          ReadSomeLeavesTheEnd(data[k..], tail, want - k);
          EndAfterDelivery(data, k, ReadSome(data[k..], tail, want - k));
        }
    }
  }

  /** The condition before one frame is read, in terms of what reading it gives. */
  ghost predicate AfterFrame(r: Reading, payloads: seq<Text>, data: Text) {
    match r.read
    case IoError => r.data == data && TimeoutsBetweenFrames(r.schedule, payloads, 0, |r.data|)
    case Frame(_) => payloads != [] && TimeoutsBetweenFrames(r.schedule, payloads[1..], 0, |r.data|)
    case _ => true
  }

  lemma NoFrameWalks(schedule: seq<ReadEvent>, max: nat)
    ensures var r := ReadFrame([], schedule, max);
            && (TimeoutsBetweenFrames(schedule, [], 0, 0) <==> AfterFrame(r, [], []))
            && !r.read.Frame? && r.data == []
  {
    hide ReadSome;
    hide TimeoutsBetweenFrames;
    FillingWalks([], schedule, [], 0);
  }

  /** The first four bytes of a cut stream are the length of its first frame. */
  lemma CutStart(payloads: seq<Text>, n: nat)
    requires payloads != [] && |payloads[0]| < U32 && 4 <= n <= |EncodeAll(payloads)|
    ensures FromLe32(EncodeAll(payloads)[..n][..4]) == |payloads[0]|
  {
    hide FromLe32;
    hide Le32;
    FrameStart(payloads[0], EncodeAll(payloads[1..]));
    LengthReadsBack(|payloads[0]|);
    var all := EncodeAll(payloads);
    hide EncodeAll;
    hide EncodeFrame;
    assert all[..n][..4] == all[..4];
  }

  lemma BodyWalks(payloads: seq<Text>, prefix: Got)
    requires payloads != []
    ensures var body := ReadSome(prefix.data, prefix.schedule, |payloads[0]|);
            TimeoutsBetweenFrames(prefix.schedule, Onwards(payloads, 0, 4).0, Onwards(payloads, 0, 4).1, |prefix.data|)
            <==>
            (if body.failed then false
             else (|body.bytes| < |payloads[0]|
                   || TimeoutsBetweenFrames(body.schedule, payloads[1..], 0, |body.data|)))
  {
    hide ReadSome;
    hide TimeoutsBetweenFrames;
    if payloads[0] == [] {
      NothingWanted(prefix.data, prefix.schedule);
    } else {
      FillingWalks(prefix.data, prefix.schedule, payloads, 4);
    }
  }

  lemma FrameWalks(payloads: seq<Text>, n: nat, schedule: seq<ReadEvent>, max: nat)
    requires AllFit(payloads, max) && n <= |EncodeAll(payloads)|
    ensures var data := EncodeAll(payloads)[..n];
            TimeoutsBetweenFrames(schedule, payloads, 0, n) <==>
              AfterFrame(ReadFrame(data, schedule, max), payloads, data)
  {
    if payloads == [] {
      NoFrameWalks(schedule, max);
    } else {
      hide ReadSome;
      hide TimeoutsBetweenFrames;
      hide FromLe32;
      hide Onwards;
      var data := EncodeAll(payloads)[..n];
      assert |data| == n;
      assert Fits(payloads[0], max);
      FillingWalks(data, schedule, payloads, 0);
      ReadSomeLeavesTheEnd(data, schedule, 4);
      var prefix := ReadSome(data, schedule, 4);
      if !prefix.failed {
        ReadSomeIsExact(data, schedule, 4);
        if |prefix.bytes| == 4 {
          CutStart(payloads, n);
          BodyWalks(payloads, prefix);
        }
      }
      hide EncodeAll;
    }
  }

  /** The condition on the schedule is that the reader, run on the stream, loses nothing. */
  lemma {:induction false} TimeoutsBetweenFramesLoseNothing(payloads: seq<Text>, n: nat, schedule: seq<ReadEvent>,
      max: nat)
    requires AllFit(payloads, max) && n <= |EncodeAll(payloads)|
    ensures TimeoutsBetweenFrames(schedule, payloads, 0, n) <==> LosesNothing(EncodeAll(payloads)[..n], schedule, max)
    decreases n + |schedule|
  {
    hide TimeoutsBetweenFrames;
    hide ReadFrame;
    hide EncodeAll;
    var data := EncodeAll(payloads)[..n];
    var r := ReadFrame(data, schedule, max);
    FrameWalks(payloads, n, schedule, max);
    if r.read.IoError? && r.data == data {
      TimeoutsBetweenFramesLoseNothing(payloads, n, r.schedule, max);
    } else if r.read.Frame? {
      var m := RestOfCut(payloads, n, schedule, max);
      TimeoutsBetweenFramesLoseNothing(payloads[1..], m, r.schedule, max);
    }
  }

  /** After a frame the rest of a cut stream is a cut stream of the other frames. */
  lemma RestOfCut(payloads: seq<Text>, n: nat, schedule: seq<ReadEvent>, max: nat) returns (m: nat)
    requires AllFit(payloads, max) && n <= |EncodeAll(payloads)|
    requires ReadFrame(EncodeAll(payloads)[..n], schedule, max).read.Frame?
    ensures payloads != [] && m <= |EncodeAll(payloads[1..])| && m < n
    ensures ReadFrame(EncodeAll(payloads)[..n], schedule, max).data == EncodeAll(payloads[1..])[..m]
  {
    hide ReadFrame;
    var data := EncodeAll(payloads)[..n];
    ReadFrameIsExact(data, schedule, max);
    assert payloads == [] ==> data == [];
    var first, rest := payloads[0], EncodeAll(payloads[1..]);
    assert Fits(first, max);
    assert |EncodeFrame(first)| == 4 + |first|;
    if n < 4 + |first| {
      if n > 0 {
        CutInsideFrame(first, rest, n, max);
      }
    } else {
      m := n - 4 - |first|;
      assert (EncodeFrame(first) + rest)[..n] == EncodeFrame(first) + rest[..m];
      FrameReadsBackExactlyWhen(first, rest[..m], max);
    }
    hide DecodeOne;
    hide EncodeFrame;
  }

  // ---------- Main results ----------

  function Size(payloads: seq<Text>): nat {
    if payloads == [] then 0 else 4 + |payloads[0]| + Size(payloads[1..])
  }

  lemma {:induction false} EncodingHasSize(payloads: seq<Text>)
    ensures |EncodeAll(payloads)| == Size(payloads)
  {
    if payloads != [] {
      EncodingHasSize(payloads[1..]);
    }
  }

  /** A frame that is read takes its bytes from the data, and an error gives none back. */
  lemma ReadTakesItsBytes(data: Text, schedule: seq<ReadEvent>, max: nat)
    ensures var r := ReadFrame(data, schedule, max);
            && (r.read.Frame? ==> |r.data| + 4 + |r.read.payload| == |data|)
            && (|r.data| == |data| ==> r.data == data)
  {
    hide ReadSome;
    hide FromLe32;
    var prefix := ReadSome(data, schedule, 4);
    ReadSomeLeavesTheEnd(data, schedule, 4);
    if |prefix.bytes| == 4 {
      var body := ReadSome(prefix.data, prefix.schedule, FromLe32(prefix.bytes));
      assert |body.data| <= |prefix.data|;
    }
  }

  /** A reading that ends cleanly cannot give back more than there is, and gives back all only if
      it lost nothing. */
  lemma {:induction false} CleanReadingIsBounded(data: Text, schedule: seq<ReadEvent>, max: nat)
    requires Collect(data, schedule, max).end.EndOfFrames?
    ensures Size(Collect(data, schedule, max).frames) <= |data|
    ensures Size(Collect(data, schedule, max).frames) == |data| ==> LosesNothing(data, schedule, max)
    decreases |data| + |schedule|
  {
    hide ReadFrame;
    var r := ReadFrame(data, schedule, max);
    ReadTakesItsBytes(data, schedule, max);
    match r.read
    case Frame(payload) =>
      CleanReadingIsBounded(r.data, r.schedule, max);
      var rest := Collect(r.data, r.schedule, max).frames;
      assert ([payload] + rest)[1..] == rest;
    case IoError => CleanReadingIsBounded(r.data, r.schedule, max);
    case _ =>
  }

  /** The frames of any list of payloads that fit read back as that list and then a clean end,
      through any schedule of short reads, interruptions and timeouts, exactly when no timeout
      falls inside a frame. */
  lemma FramesReadBackExactlyWhen(payloads: seq<Text>, schedule: seq<ReadEvent>, max: nat)
    requires AllFit(payloads, max)
    ensures Collect(EncodeAll(payloads), schedule, max) == Collected(payloads, EndOfFrames)
            <==> TimeoutsBetweenFrames(schedule, payloads, 0, |EncodeAll(payloads)|)
  {
    hide Collect;
    hide LosesNothing;
    hide TimeoutsBetweenFrames;
    var data := EncodeAll(payloads);
    assert data[..|data|] == data;
    TimeoutsBetweenFramesLoseNothing(payloads, |data|, schedule, max);
    if LosesNothing(data, schedule, max) {
      CollectIsExact(data, schedule, max);
      FramesDecode(payloads, max);
    } else if Collect(data, schedule, max) == Collected(payloads, EndOfFrames) {
      EncodingHasSize(payloads);
      CleanReadingIsBounded(data, schedule, max);
    }
  }

  /** A schedule without timeouts has none inside a frame. */
  lemma {:induction false} NoTimeoutIsBetweenFrames(schedule: seq<ReadEvent>, payloads: seq<Text>, got: nat, left: nat)
    requires NoTimeout(schedule)
    ensures TimeoutsBetweenFrames(schedule, payloads, got, left)
    decreases |schedule|
  {
    if schedule != [] {
      var tail := schedule[1..];
      match schedule[0]
      case Interrupt => NoTimeoutIsBetweenFrames(tail, payloads, got, left);
      case Deliver(extra) =>
        var k := Min(Min(left, Wanted(payloads, got)), 1 + extra);
        if k > 0 {
          var (rest, at) := Onwards(payloads, got, k);
          NoTimeoutIsBetweenFrames(tail, rest, at, left - k);
        }
    }
  }

  /** A stream cut anywhere reads as the whole frames before the cut, and then as a clean end when
      the cut is between frames and as truncated when it is inside one; never as a wrong payload. */
  lemma CutStreamReadsBack(payloads: seq<Text>, n: nat, schedule: seq<ReadEvent>, max: nat)
    requires AllFit(payloads, max)
    requires n <= |EncodeAll(payloads)| && TimeoutsBetweenFrames(schedule, payloads, 0, n)
    ensures Collect(EncodeAll(payloads)[..n], schedule, max) == CutAt(payloads, n)
    ensures CutAt(payloads, n).frames <= payloads
    ensures CutAt(payloads, n).end.EndOfFrames?
            || (CutAt(payloads, n).end.Broken? && CutAt(payloads, n).end.error.Truncated?)
  {
    hide Collect;
    hide LosesNothing;
    TimeoutsBetweenFramesLoseNothing(payloads, n, schedule, max);
    hide TimeoutsBetweenFrames;
    CollectIsExact(EncodeAll(payloads)[..n], schedule, max);
    CutFramesDecode(payloads, n, max);
    CutKeepsAPrefix(payloads, n);
  }

  lemma LossyBody(payload: Text, last: Byte, max: nat)
    requires Fits(payload, max) && payload != []
    ensures ReadFrame(Le32(|payload|) + [last], [Deliver(3), Fail], max) == Reading(IoError, [last], [])
  {
    hide ReadSome;
    hide FromLe32;
    hide Le32;
    var data := Le32(|payload|) + [last];
    ReadSomeUnfolds(data, [Deliver(3), Fail], 4);
    assert data[..4] == Le32(|payload|) && data[4..] == [last] && [Deliver(3), Fail][1..] == [Fail];
    NothingWanted([last], [Fail]);
    assert Le32(|payload|) + [] == Le32(|payload|);
    LengthReadsBack(|payload|);
    ReadSomeUnfolds([last], [Fail], |payload|);
    assert [Fail][1..] == [];
  }

  /** Inside a cut frame a loss can stay hidden, so for such streams the condition is not needed:
      four bytes of payload cut after one read as truncated the same when their length was lost. */
  lemma CutCanHideALoss(payload: Text, max: nat)
    requires |payload| == 4 <= max
    ensures 5 <= |EncodeAll([payload])| && !TimeoutsBetweenFrames([Deliver(3), Fail], [payload], 0, 5)
    ensures Collect(EncodeAll([payload])[..5], [Deliver(3), Fail], max) == CutAt([payload], 5)
  {
    hide FromLe32;
    hide Le32;
    var schedule := [Deliver(3), Fail];
    assert schedule[1..] == [Fail];
    var all := EncodeAll([payload]);
    assert all == Le32(4) + payload + EncodeAll([payload][1..]);
    assert all[..5] == Le32(4) + [payload[0]];
    assert TimeoutsBetweenFrames([Fail], [payload], 4, 1) == false;
    LossyBody(payload, payload[0], max);
    var last := [payload[0]];
    NoTimeoutLosesNothing(last, [], max);
    CollectIsExact(last, [], max);
    hide ReadFrame;
  }
}
