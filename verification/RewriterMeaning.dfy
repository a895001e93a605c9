/**
 What the rewriter preserves. A frame sequence means a sequence of events (RFC 6455, section 5.4):
 complete messages and control frames, in the order in which each is completed.
 */
module RewriterMeaning {
  import opened Prelude
  import opened WebSocketFrames
  import opened WebSocketObserver
  import opened WebSocketRewriter

  datatype Event =
    | Message(opcode: Opcode, rsv: Reserved, payload: seq<Byte>)
    | Control(frame: Frame)
    | Stray(frame: Frame)

  /** A message whose final fragment is still to come. */
  datatype Partial = NoMessage | Partial(opcode: Opcode, rsv: Reserved, soFar: seq<Byte>)

  function Events(frames: seq<Frame>, open: Partial): seq<Event>
  {
    if frames == [] then []
    else
      var f, rest := frames[0], frames[1..];
      if f.opcode >= OP_CLOSE then [Control(f)] + Events(rest, open)
      else if f.opcode != OP_CONTINUATION then
        if f.fin then [Message(f.opcode, f.rsv, f.payload)] + Events(rest, open)
        else Events(rest, Partial(f.opcode, f.rsv, f.payload))
      else
        match open
        case NoMessage => [Stray(f)] + Events(rest, NoMessage)
        case Partial(opcode, rsv, soFar) =>
          if f.fin then [Message(opcode, rsv, soFar + f.payload)] + Events(rest, NoMessage)
          else Events(rest, Partial(opcode, rsv, soFar + f.payload))
  }

  /** Section 5.4: no message starts before the one before it has ended. */
  predicate Sequenced(frames: seq<Frame>, open: bool)
  {
    frames == [] ||
    var f, rest := frames[0], frames[1..];
    if f.opcode >= OP_CLOSE then Sequenced(rest, open)
    else if f.opcode == OP_CONTINUATION then Sequenced(rest, open && !f.fin)
    else !open && Sequenced(rest, !f.fin)
  }

  /** A text message that is transformed: its first frame carries no reserved bits. */
  predicate Plain(open: Partial)
  {
    open.Partial? && open.opcode == OP_TEXT && open.rsv == 0
  }

  /** Every transformed text, complete or not, stays within the cap, and every complete one can be transformed. */
  predicate Transformable(frames: seq<Frame>, open: Partial, ctx: Context)
  {
    frames == [] ||
    var f, rest := frames[0], frames[1..];
    if f.opcode >= OP_CLOSE then Transformable(rest, open, ctx)
    else if f.opcode != OP_CONTINUATION then
      if f.opcode == OP_TEXT && f.rsv == 0 then
        if f.fin then ctx.inject(f.payload).Some? && Transformable(rest, open, ctx)
        else |f.payload| <= ctx.cap && Transformable(rest, Partial(f.opcode, f.rsv, f.payload), ctx)
      else Transformable(rest, if f.fin then open else Partial(f.opcode, f.rsv, f.payload), ctx)
    else
      match open
      case NoMessage => Transformable(rest, open, ctx)
      case Partial(opcode, rsv, soFar) =>
        var text := soFar + f.payload;
        && (Plain(open) ==> |text| <= ctx.cap && (f.fin ==> ctx.inject(text).Some?))
        && Transformable(rest, if f.fin then NoMessage else Partial(opcode, rsv, text), ctx)
  }

  /** The meaning that must come out: plain text messages transformed, all else unchanged. */
  function Transformed(events: seq<Event>, ctx: Context): (r: seq<Event>)
    ensures |r| == |events|
  {
    seq(|events|, i requires 0 <= i < |events| => TransformedEvent(events[i], ctx))
  }

  function TransformedEvent(e: Event, ctx: Context): Event
  {
    if e.Message? && e.opcode == OP_TEXT && e.rsv == 0 then
      match ctx.inject(e.payload)
      case Some(updated) => Message(OP_TEXT, 0, updated)
      case None => e
    else e
  }

  /** The frames up to and including the first Close, and the bytes after it. */
  function UntilClose(bytes: seq<Byte>, cap: nat): Option<(seq<Frame>, seq<Byte>)>
    decreases |bytes|
  {
    match DecodeFrame(bytes, cap)
    case Err(_) => None
    case Ok((f, rest)) =>
      if f.opcode == OP_CLOSE then Some(([f], rest))
      else
        match UntilClose(rest, cap)
        case None => None
        case Some((frames, tail)) => Some(([f] + frames, tail))
  }

  // ---------------------------------------------------------------- one frame

  function BufferFor(open: Partial): Buffer
  {
    if Plain(open) then Buffering(open.soFar) else Idle
  }

  /** While a message is being buffered its fragments have not been sent. */
  function SentOpen(open: Partial): Partial
  {
    if Plain(open) then NoMessage else open
  }

  /** What is open after the frame. */
  function OpenAfter(f: Frame, open: Partial): Partial
  {
    if f.opcode >= OP_CLOSE then open
    else if f.opcode != OP_CONTINUATION then if f.fin then open else Partial(f.opcode, f.rsv, f.payload)
    else
      match open
      case NoMessage => NoMessage
      case Partial(opcode, rsv, soFar) =>
        if f.fin then NoMessage else Partial(opcode, rsv, soFar + f.payload)
  }

  /** The event the frame completes. */
  function EventOf(f: Frame, open: Partial): seq<Event>
  {
    if f.opcode >= OP_CLOSE then [Control(f)]
    else if f.opcode != OP_CONTINUATION then if f.fin then [Message(f.opcode, f.rsv, f.payload)] else []
    else
      match open
      case NoMessage => [Stray(f)]
      case Partial(opcode, rsv, soFar) => if f.fin then [Message(opcode, rsv, soFar + f.payload)] else []
  }

  lemma EventsStep(f: Frame, rest: seq<Frame>, open: Partial)
    ensures Events([f] + rest, open) == EventOf(f, open) + Events(rest, OpenAfter(f, open))
  {
    assert ([f] + rest)[0] == f && ([f] + rest)[1..] == rest;
  }

  lemma TransformedConcat(a: seq<Event>, b: seq<Event>, ctx: Context)
    ensures Transformed(a + b, ctx) == Transformed(a, ctx) + Transformed(b, ctx)
  {
  }

  /** The frame is acceptable where it stands. */
  predicate FrameTransformable(f: Frame, open: Partial, ctx: Context)
  {
    if f.opcode == OP_TEXT && f.rsv == 0 then
      if f.fin then ctx.inject(f.payload).Some? else |f.payload| <= ctx.cap
    else if f.opcode == OP_CONTINUATION && Plain(open) then
      var text := open.soFar + f.payload;
      |text| <= ctx.cap && (f.fin ==> ctx.inject(text).Some?)
    else true
  }

  lemma TransformableStep(f: Frame, rest: seq<Frame>, open: Partial, ctx: Context)
    ensures Transformable([f] + rest, open, ctx)
       <==> FrameTransformable(f, open, ctx) && Transformable(rest, OpenAfter(f, open), ctx)
  {
    assert ([f] + rest)[0] == f && ([f] + rest)[1..] == rest;
  }

  lemma SequencedStep(f: Frame, rest: seq<Frame>, open: Partial)
    requires Sequenced([f] + rest, open.Partial?)
    ensures Sequenced(rest, OpenAfter(f, open).Partial?)
    ensures 0 < f.opcode < OP_CLOSE ==> open.NoMessage?
  {
    assert ([f] + rest)[0] == f && ([f] + rest)[1..] == rest;
  }

  /** A frame that may stand here is handled without error exactly when its text can be transformed. */
  lemma HandleSucceeds(f: Frame, open: Partial, ctx: Context)
    requires 0 < f.opcode < OP_CLOSE ==> open.NoMessage?
    ensures var step := Handle(f, BufferFor(open), ctx);
            && (step.Failed? <==> !FrameTransformable(f, open, ctx))
            && (step.Finished? <==> f.opcode == OP_CLOSE)
            && (step.Continue? ==> step.buffer == BufferFor(OpenAfter(f, open)))
  {
    assert [] + f.payload == f.payload;
  }

  /** What is written for the frame means what the frame meant. */
  lemma HandleMeans(f: Frame, open: Partial, ctx: Context)
    requires 0 < f.opcode < OP_CLOSE ==> open.NoMessage?
    requires FrameTransformable(f, open, ctx)
    ensures var out := AsList(Handle(f, BufferFor(open), ctx).write);
            forall more: seq<Frame> ::
              Events(out + more, SentOpen(open))
              == Transformed(EventOf(f, open), ctx) + Events(more, SentOpen(OpenAfter(f, open)))
  {
    assert [] + f.payload == f.payload;
    var write := Handle(f, BufferFor(open), ctx).write;
    forall more: seq<Frame>
      ensures Events(AsList(write) + more, SentOpen(open))
           == Transformed(EventOf(f, open), ctx) + Events(more, SentOpen(OpenAfter(f, open)))
    {
      match write
      case None =>
        assert AsList(write) + more == more;
      case Some(out) =>
        EventsStep(out, more, SentOpen(open));
    }
  }

  // ---------------------------------------------------------------- the stream

  /** The frames the loop has finished with: all it read but the one at which it failed. */
  function Handled(bytes: seq<Byte>, buffer: Buffer, k: nat, ctx: Context): seq<Frame>
    decreases |bytes|
  {
    match DecodeFrame(bytes, ctx.cap)
    case Err(_) => []
    case Ok((f, rest)) =>
      var step := Handle(f, buffer, ctx);
      if GoesOn(step, k, ctx) then [f] + Handled(rest, step.buffer, CountWrite(k, step.write), ctx)
      else if ErrorOf(step, k, ctx) == None then [f]
      else []
  }

  lemma HandledGoesOn(bytes: seq<Byte>, buffer: Buffer, k: nat, ctx: Context, f: Frame, rest: seq<Byte>, step: Step)
    requires DecodeFrame(bytes, ctx.cap) == Ok((f, rest)) && step == Handle(f, buffer, ctx) && GoesOn(step, k, ctx)
    ensures Handled(bytes, buffer, k, ctx) == [f] + Handled(rest, step.buffer, CountWrite(k, step.write), ctx)
  {
  }

  lemma HandledEnds(bytes: seq<Byte>, buffer: Buffer, k: nat, ctx: Context, f: Frame, rest: seq<Byte>)
    requires DecodeFrame(bytes, ctx.cap) == Ok((f, rest)) && !GoesOn(Handle(f, buffer, ctx), k, ctx)
    ensures Handled(bytes, buffer, k, ctx) == if ErrorOf(Handle(f, buffer, ctx), k, ctx) == None then [f] else []
  {
  }

  lemma FramesStep(bytes: seq<Byte>, cap: nat, f: Frame, rest: seq<Byte>)
    requires DecodeFrame(bytes, cap) == Ok((f, rest))
    ensures FramesIn(bytes, cap) == [f] + FramesIn(rest, cap)
  {
  }

  /** They are the first frames of the stream. */
  lemma {:induction false} HandledIsPrefix(bytes: seq<Byte>, buffer: Buffer, k: nat, ctx: Context)
    ensures Handled(bytes, buffer, k, ctx) <= FramesIn(bytes, ctx.cap)
    decreases |bytes|
  {
    match DecodeFrame(bytes, ctx.cap)
    case Err(_) =>
    case Ok((f, rest)) =>
      var step := Handle(f, buffer, ctx);
      FramesStep(bytes, ctx.cap, f, rest);
      if GoesOn(step, k, ctx) {
        HandledGoesOn(bytes, buffer, k, ctx, f, rest, step);
        HandledIsPrefix(rest, step.buffer, CountWrite(k, step.write), ctx);
      } else {
        HandledEnds(bytes, buffer, k, ctx, f, rest);
      }
  }

  /** If reading failed, all frames that could be read were handled. */
  lemma {:induction false} ReadFailureHandlesAll(bytes: seq<Byte>, buffer: Buffer, k: nat, ctx: Context)
    requires var error := CopyStream(bytes, buffer, k, ctx).error; error.Some? && error.value.ReadFailed?
    ensures Handled(bytes, buffer, k, ctx) == FramesIn(bytes, ctx.cap)
    decreases |bytes|
  {
    match DecodeFrame(bytes, ctx.cap)
    case Err(_) =>
    case Ok((f, rest)) =>
      var step := Handle(f, buffer, ctx);
      if GoesOn(step, k, ctx) {
        CopyGoesOn(bytes, buffer, k, ctx, f, rest, step);
        HandledGoesOn(bytes, buffer, k, ctx, f, rest, step);
        ReadFailureHandlesAll(rest, step.buffer, CountWrite(k, step.write), ctx);
        FramesStep(bytes, ctx.cap, f, rest);
      } else {
        CopyEnds(bytes, buffer, k, ctx, f, rest);
        NoReadFailure(f, buffer, k, ctx);
      }
  }

  lemma NoReadFailure(f: Frame, buffer: Buffer, k: nat, ctx: Context)
    ensures var error := ErrorOf(Handle(f, buffer, ctx), k, ctx); error.Some? ==> !error.value.ReadFailed?
  {
  }

  lemma UntilCloseStep(bytes: seq<Byte>, cap: nat, f: Frame, rest: seq<Byte>)
    requires DecodeFrame(bytes, cap) == Ok((f, rest))
    ensures f.opcode == OP_CLOSE ==> UntilClose(bytes, cap) == Some(([f], rest))
    ensures f.opcode != OP_CLOSE && UntilClose(rest, cap).Some? ==>
              UntilClose(bytes, cap) == Some(([f] + UntilClose(rest, cap).value.0, UntilClose(rest, cap).value.1))
    ensures f.opcode != OP_CLOSE ==> (UntilClose(bytes, cap).Some? <==> UntilClose(rest, cap).Some?)
  {
  }

  /** If nothing failed, all frames up to Close were handled, and nothing after it was read. */
  lemma {:induction false} SuccessReachesClose(bytes: seq<Byte>, buffer: Buffer, k: nat, ctx: Context)
    requires CopyStream(bytes, buffer, k, ctx).error == None
    ensures UntilClose(bytes, ctx.cap)
         == Some((Handled(bytes, buffer, k, ctx), CopyStream(bytes, buffer, k, ctx).rest))
    decreases |bytes|
  {
    var (f, rest) := DecodeFrame(bytes, ctx.cap).value;
    var step := Handle(f, buffer, ctx);
    Returns(f, buffer, k, ctx);
    UntilCloseStep(bytes, ctx.cap, f, rest);
    if GoesOn(step, k, ctx) {
      CopyGoesOn(bytes, buffer, k, ctx, f, rest, step);
      HandledGoesOn(bytes, buffer, k, ctx, f, rest, step);
      SuccessReachesClose(rest, step.buffer, CountWrite(k, step.write), ctx);
    } else {
      CopyEnds(bytes, buffer, k, ctx, f, rest);
      HandledEnds(bytes, buffer, k, ctx, f, rest);
    }
  }

  lemma OneFrameMeans(f: Frame, more: seq<Frame>, open: Partial, sent: seq<Frame>, ctx: Context)
    requires Sequenced([f] + more, open.Partial?) && !Handle(f, BufferFor(open), ctx).Failed?
    requires Events(sent, SentOpen(OpenAfter(f, open))) == Transformed(Events(more, OpenAfter(f, open)), ctx)
    ensures Events(AsList(Handle(f, BufferFor(open), ctx).write) + sent, SentOpen(open))
         == Transformed(Events([f] + more, open), ctx)
  {
    EventsStep(f, more, open);
    SequencedStep(f, more, open);
    HandleSucceeds(f, open, ctx);
    HandleMeans(f, open, ctx);
    TransformedConcat(EventOf(f, open), Events(more, OpenAfter(f, open)), ctx);
  }

  /** What was written means the transformed events of the frames that were handled, however the loop ended. */
  lemma {:induction false} CopyMeans(bytes: seq<Byte>, open: Partial, k: nat, ctx: Context)
    requires Sequenced(Handled(bytes, BufferFor(open), k, ctx), open.Partial?)
    ensures Events(CopyStream(bytes, BufferFor(open), k, ctx).frames, SentOpen(open))
         == Transformed(Events(Handled(bytes, BufferFor(open), k, ctx), open), ctx)
    decreases |bytes|
  {
    var buffer := BufferFor(open);
    match DecodeFrame(bytes, ctx.cap)
    case Err(_) =>
    case Ok((f, rest)) =>
      var step := Handle(f, buffer, ctx);
      if GoesOn(step, k, ctx) {
        var j := CountWrite(k, step.write);
        var more := Handled(rest, step.buffer, j, ctx);
        CopyGoesOn(bytes, buffer, k, ctx, f, rest, step);
        HandledGoesOn(bytes, buffer, k, ctx, f, rest, step);
        SequencedStep(f, more, open);
        HandleSucceeds(f, open, ctx);
        CopyMeans(rest, OpenAfter(f, open), j, ctx);
        OneFrameMeans(f, more, open, CopyStream(rest, step.buffer, j, ctx).frames, ctx);
      } else {
        CopyEnds(bytes, buffer, k, ctx, f, rest);
        HandledEnds(bytes, buffer, k, ctx, f, rest);
        LastFrameMeans(f, open, k, ctx);
      }
  }

  lemma LastFrameMeans(f: Frame, open: Partial, k: nat, ctx: Context)
    requires !GoesOn(Handle(f, BufferFor(open), ctx), k, ctx)
    requires ErrorOf(Handle(f, BufferFor(open), ctx), k, ctx) == None ==> Sequenced([f], open.Partial?)
    ensures var step := Handle(f, BufferFor(open), ctx);
            Events(AsList(Whole(WrittenBy(step), k, ctx)), SentOpen(open))
            == Transformed(Events(if ErrorOf(step, k, ctx) == None then [f] else [], open), ctx)
  {
    var step := Handle(f, BufferFor(open), ctx);
    if ErrorOf(step, k, ctx) == None {
      OneFrameMeans(f, [], open, [], ctx);
      assert [f] + [] == [f] && AsList(step.write) + [] == AsList(step.write);
    }
  }

  // ---------------------------------------------------------------- when the loop succeeds

  /** The frame is sent on, or ends a message that is: it is no fragment of a plain text that goes on. */
  predicate SendsOn(f: Frame, open: Partial)
  {
    f.fin || !((f.opcode == OP_TEXT && f.rsv == 0) || (f.opcode == OP_CONTINUATION && Plain(open)))
  }

  function WriteCount(frames: seq<Frame>, open: Partial): nat
  {
    if frames == [] then 0
    else (if SendsOn(frames[0], open) then 1 else 0) + WriteCount(frames[1..], OpenAfter(frames[0], open))
  }

  /** None of the next n writes to the connection fails. */
  ghost predicate Unbroken(k: nat, n: nat, ctx: Context)
  {
    forall i :: k <= i < k + n ==> ctx.broken(i) == None
  }

  lemma WriteCountStep(f: Frame, rest: seq<Frame>, open: Partial)
    ensures WriteCount([f] + rest, open) == (if SendsOn(f, open) then 1 else 0) + WriteCount(rest, OpenAfter(f, open))
  {
    assert ([f] + rest)[0] == f && ([f] + rest)[1..] == rest;
  }

  lemma UnbrokenStep(write: Option<Frame>, k: nat, n: nat, ctx: Context)
    ensures Unbroken(k, (if write.Some? then 1 else 0) + n, ctx)
       <==> !Tears(write, k, ctx) && Unbroken(CountWrite(k, write), n, ctx)
  {
  }

  /** Among frames that may stand here, those sent on are the ones that lead to a write. */
  lemma HandleSends(f: Frame, open: Partial, ctx: Context)
    requires 0 < f.opcode < OP_CLOSE ==> open.NoMessage?
    ensures var step := Handle(f, BufferFor(open), ctx);
            !step.Failed? ==> (step.write.Some? <==> SendsOn(f, open))
  {
  }

  /** The frames up to Close can be transformed, and no write they need fails. */
  ghost predicate CanSucceed(frames: seq<Frame>, open: Partial, k: nat, ctx: Context)
  {
    Transformable(frames, open, ctx) && Unbroken(k, WriteCount(frames, open), ctx)
  }

  lemma CanSucceedStep(f: Frame, rest: seq<Frame>, open: Partial, k: nat, ctx: Context)
    requires 0 < f.opcode < OP_CLOSE ==> open.NoMessage?
    ensures var step := Handle(f, BufferFor(open), ctx);
            CanSucceed([f] + rest, open, k, ctx) <==>
              && !step.Failed? && !Tears(step.write, k, ctx)
              && CanSucceed(rest, OpenAfter(f, open), CountWrite(k, step.write), ctx)
  {
    var step := Handle(f, BufferFor(open), ctx);
    HandleSucceeds(f, open, ctx);
    HandleSends(f, open, ctx);
    TransformableStep(f, rest, open, ctx);
    WriteCountStep(f, rest, open);
    if !step.Failed? {
      UnbrokenStep(step.write, k, WriteCount(rest, OpenAfter(f, open)), ctx);
    }
  }

  lemma {:induction false} SucceedsFrom(bytes: seq<Byte>, open: Partial, k: nat, ctx: Context)
    requires UntilClose(bytes, ctx.cap).Some? && Sequenced(UntilClose(bytes, ctx.cap).value.0, open.Partial?)
    ensures CopyStream(bytes, BufferFor(open), k, ctx).error == None
       <==> CanSucceed(UntilClose(bytes, ctx.cap).value.0, open, k, ctx)
    decreases |bytes|
  {
    var buffer := BufferFor(open);
    var (f, rest) := DecodeFrame(bytes, ctx.cap).value;
    var step := Handle(f, buffer, ctx);
    var remaining := if f.opcode == OP_CLOSE then [] else UntilClose(rest, ctx.cap).value.0;
    UntilCloseStep(bytes, ctx.cap, f, rest);
    assert UntilClose(bytes, ctx.cap).value.0 == [f] + remaining;
    SequencedStep(f, remaining, open);
    HandleSucceeds(f, open, ctx);
    CanSucceedStep(f, remaining, open, k, ctx);
    Returns(f, buffer, k, ctx);
    if GoesOn(step, k, ctx) {
      CopyGoesOn(bytes, buffer, k, ctx, f, rest, step);
      SucceedsFrom(rest, OpenAfter(f, open), CountWrite(k, step.write), ctx);
    } else {
      CopyEnds(bytes, buffer, k, ctx, f, rest);
    }
  }

  /**
   On every sequenced stream that reaches Close the loop succeeds exactly when every plain text can be
   transformed within the cap and the connection takes every write: one for each frame but the fragments of a
   plain text that goes on.
   */
  lemma SucceedsExactly(bytes: seq<Byte>, k: nat, ctx: Context)
    requires UntilClose(bytes, ctx.cap).Some? && Sequenced(UntilClose(bytes, ctx.cap).value.0, false)
    ensures var frames := UntilClose(bytes, ctx.cap).value.0;
            CopyStream(bytes, Idle, k, ctx).error == None <==>
              && Transformable(frames, NoMessage, ctx)
              && forall i :: k <= i < k + WriteCount(frames, NoMessage) ==> ctx.broken(i) == None
  {
    SucceedsFrom(bytes, NoMessage, k, ctx);
  }

  // ---------------------------------------------------------------- what a receiver reads

  lemma EncodingsTail(frames: seq<Frame>, k: nat, masks: nat -> Mask)
    requires frames != []
    ensures Joined(Encodings(frames, k, masks))
         == EncodedFrame(frames[0], true, masks(k)) + Joined(Encodings(frames[1..], k + 1, masks))
  {
    var writes := Encodings(frames, k, masks);
    assert writes[1..] == Encodings(frames[1..], k + 1, masks);
  }

  lemma OneMoreRead(f: Frame, mask: Mask, more: seq<Byte>, rest: seq<Byte>, frames: seq<Frame>, cap: nat)
    requires f.Valid() && |f.payload| <= cap && FramesIn(more + rest, cap) == frames
    ensures FramesIn((EncodedFrame(f, true, mask) + more) + rest, cap) == [f] + frames
  {
    Associative(EncodedFrame(f, true, mask), more, rest);
    EncodedFrameReadBack(f, true, mask, more + rest, cap);
  }

  /** The writes, decoded again, are the frames the loop meant to write, then whatever follows them. */
  lemma {:induction false} SentReadsBack(frames: seq<Frame>, k: nat, masks: nat -> Mask, rest: seq<Byte>, cap: nat)
    requires forall f <- frames :: f.Valid() && |f.payload| <= cap
    ensures FramesIn(Joined(Encodings(frames, k, masks)) + rest, cap) == frames + FramesIn(rest, cap)
    decreases frames
  {
    if frames == [] {
      assert Joined(Encodings(frames, k, masks)) + rest == rest;
    } else {
      var more := Joined(Encodings(frames[1..], k + 1, masks));
      EncodingsTail(frames, k, masks);
      SentReadsBack(frames[1..], k + 1, masks, rest, cap);
      OneMoreRead(frames[0], masks(k), more, rest, frames[1..] + FramesIn(rest, cap), cap);
      assert frames == [frames[0]] + frames[1..];
      Associative([frames[0]], frames[1..], FramesIn(rest, cap));
    }
  }

  lemma DecodeExtends(bytes: seq<Byte>, more: seq<Byte>, cap: nat)
    requires DecodeFrame(bytes, cap).Ok?
    ensures var (f, rest) := DecodeFrame(bytes, cap).value;
            DecodeFrame(bytes + more, cap) == Ok((f, rest + more))
  {
    var front, body := SplitHeader(bytes);
    var n := CompleteHeader(front).payloadLen;
    var raw, rest := body[..n], body[n..];
    assert body == raw + rest;
    DecodeParts(front, raw, rest + more, cap);
    Associative(raw, rest, more);
    Associative(front, body, more);
  }

  lemma CutUnread(whole: seq<Byte>, n: nat, cap: nat)
    requires DecodeFrame(whole, cap).Ok? && DecodeFrame(whole, cap).value.1 == [] && n < |whole|
    ensures DecodeFrame(whole[..n], cap).Err?
  {
    assert whole[..n] + whole[n..] == whole;
    if DecodeFrame(whole[..n], cap).Ok? {
      DecodeExtends(whole[..n], whole[n..], cap);
    }
  }

  /** A receiver cannot read a frame of which the end is missing. */
  lemma CutFrameUnread(frame: Frame, mask: Mask, n: nat, cap: nat)
    requires frame.Valid() && |frame.payload| <= cap && n < |EncodedFrame(frame, true, mask)|
    ensures DecodeFrame(EncodedFrame(frame, true, mask)[..n], cap).Err?
  {
    var whole := EncodedFrame(frame, true, mask);
    RoundTrip(frame, true, mask, [], cap);
    assert whole + [] == whole;
    CutUnread(whole, n, cap);
  }

  /** What is on the wire after the loop. */
  function Wire(outcome: Outcome, k: nat, masks: nat -> Mask): seq<Byte>
  {
    Joined(Encodings(outcome.frames, k, masks)) + Joined(TornList(outcome.torn))
  }

  /**
   A receiver reads from the wire frames that mean the events of the frames the loop finished with, in order, with
   each plain text message transformed, and nothing more unless a failed write did deliver its last byte. If the
   loop succeeds, those are all frames up to Close and nothing after it was read.
   */
  ghost predicate MeaningPreserved(bytes: seq<Byte>, ctx: Context, k: nat, outCap: nat)
  {
    var outcome, handled := CopyStream(bytes, Idle, k, ctx), Handled(bytes, Idle, k, ctx);
    var received := FramesIn(Wire(outcome, k, ctx.masks), outCap);
    && outcome.frames <= received
    && (outcome.torn == None || DecodeFrame(outcome.torn.value, outCap).Err? ==> received == outcome.frames)
    && Events(outcome.frames, NoMessage) == Transformed(Events(handled, NoMessage), ctx)
    && (outcome.error == None ==> UntilClose(bytes, ctx.cap) == Some((handled, outcome.rest)))
  }

  /**
   The rewriter preserves meaning, for every byte stream, whether the loop succeeds or fails, if the frames it
   finished with are sequenced. `outCap` is any size that the written payloads do not exceed.
   */
  lemma RewriterPreservesMeaning(bytes: seq<Byte>, ctx: Context, k: nat, outCap: nat)
    requires Sequenced(Handled(bytes, Idle, k, ctx), false)
    requires forall f <- CopyStream(bytes, Idle, k, ctx).frames :: f.Valid() && |f.payload| <= outCap
    ensures MeaningPreserved(bytes, ctx, k, outCap)
  {
    var outcome := CopyStream(bytes, Idle, k, ctx);
    CopyMeans(bytes, NoMessage, k, ctx);
    SentReadsBack(outcome.frames, k, ctx.masks, Joined(TornList(outcome.torn)), outCap);
    if outcome.torn.Some? {
      JoinedOne(outcome.torn.value);
    } else {
      assert FramesIn([], outCap) == [];
    }
    if outcome.error == None {
      SuccessReachesClose(bytes, Idle, k, ctx);
    }
  }

  lemma {:induction false} PrefixIsSequenced(front: seq<Frame>, frames: seq<Frame>, open: bool)
    requires front <= frames && Sequenced(frames, open)
    ensures Sequenced(front, open)
    decreases front
  {
    if front != [] {
      var f := frames[0];
      var next := if f.opcode >= OP_CLOSE then open else if f.opcode == OP_CONTINUATION then open && !f.fin else !f.fin;
      PrefixIsSequenced(front[1..], frames[1..], next);
    }
  }

  /** A client that keeps to section 5.4 has its meaning preserved, whatever the loop and the connection do. */
  lemma SequencedClientsAreUnderstood(bytes: seq<Byte>, ctx: Context, k: nat, outCap: nat)
    requires Sequenced(FramesIn(bytes, ctx.cap), false)
    requires forall f <- CopyStream(bytes, Idle, k, ctx).frames :: f.Valid() && |f.payload| <= outCap
    ensures MeaningPreserved(bytes, ctx, k, outCap) && Handled(bytes, Idle, k, ctx) <= FramesIn(bytes, ctx.cap)
  {
    HandledIsPrefix(bytes, Idle, k, ctx);
    PrefixIsSequenced(Handled(bytes, Idle, k, ctx), FramesIn(bytes, ctx.cap), false);
    RewriterPreservesMeaning(bytes, ctx, k, outCap);
  }
}
