/**
 The client-to-upstream copy loop: fragmented text messages are put together, transformed and
 sent as one frame; everything else passes through, control frames also in the middle of a message.
 */
module WebSocketRewriter {
  import opened Prelude
  import opened WebSocketFrames
  import opened WebSocketObserver

  datatype CopyError = ReadFailed(error: ReadError) | MessageTooLarge | Interrupted | InjectFailed | WriteFailed

  /**
   The tool injection applied to each text message, the size cap, the random masks, and which writes to
   the upstream connection fail, each after how many bytes.
   */
  datatype Context = Context(
    inject: seq<Byte> -> Option<seq<Byte>>, cap: nat, masks: nat -> Mask, broken: nat -> Option<nat>)

  // ---------------------------------------------------------------- what one frame does

  /** The fragments of the text message being put together, if one is. */
  datatype Buffer = Idle | Buffering(text: seq<Byte>)

  datatype Step =
    | Continue(write: Option<Frame>, buffer: Buffer)
    | Finished(write: Option<Frame>)
    | Failed(error: CopyError)

  function Inject(text: seq<Byte>, ctx: Context): Step
  {
    match ctx.inject(text)
    case Some(updated) => Continue(Some(Frame(OP_TEXT, true, 0, updated)), Idle)
    case None => Failed(InjectFailed)
  }

  function Append(soFar: seq<Byte>, more: seq<Byte>, fin: bool, ctx: Context): Step
  {
    if |soFar| + |more| > ctx.cap then Failed(MessageTooLarge)
    else if fin then Inject(soFar + more, ctx)
    else Continue(None, Buffering(soFar + more))
  }

  function Handle(f: Frame, buffer: Buffer, ctx: Context): Step
  {
    if f.opcode == OP_TEXT then
      if f.rsv != 0 then Continue(Some(f), buffer)
      else if f.fin then
        match Inject(f.payload, ctx)
        case Continue(write, _) => Continue(write, buffer)
        case failed => failed
      else Append([], f.payload, false, ctx)
    else if f.opcode == OP_CONTINUATION then
      match buffer
      case Idle => Continue(Some(f), Idle)
      case Buffering(text) => Append(text, f.payload, f.fin, ctx)
    else if buffer.Buffering? && f.opcode < OP_CLOSE then Failed(Interrupted)
    else if f.opcode == OP_CLOSE then Finished(Some(f))
    else Continue(Some(f), buffer)
  }

  function AsList(f: Option<Frame>): seq<Frame>
  {
    match f case Some(frame) => [frame] case None => []
  }

  function TornList(torn: Option<seq<Byte>>): seq<seq<Byte>>
  {
    match torn case Some(part) => [part] case None => []
  }

  /** The number of writes made after this one, if there is one. */
  function CountWrite(k: nat, write: Option<Frame>): nat
  {
    if write.Some? then k + 1 else k
  }

  function WrittenBy(step: Step): Option<Frame>
  {
    if step.Failed? then None else step.write
  }

  /** What a write that fails after n bytes leaves on the wire. */
  function Torn(encoded: seq<Byte>, n: nat): seq<Byte>
  {
    if n < |encoded| then encoded[..n] else encoded
  }

  /** The k-th write to the connection is needed and fails. */
  predicate Tears(write: Option<Frame>, k: nat, ctx: Context)
  {
    write.Some? && ctx.broken(k).Some?
  }

  /** What the receiver gets whole of the k-th write, and what it gets of it if it fails. */
  function Whole(write: Option<Frame>, k: nat, ctx: Context): Option<Frame>
  {
    if Tears(write, k, ctx) then None else write
  }

  function Part(write: Option<Frame>, k: nat, ctx: Context): Option<seq<Byte>>
  {
    if Tears(write, k, ctx) then Some(Torn(EncodedFrame(write.value, true, ctx.masks(k)), ctx.broken(k).value))
    else None
  }

  /** The frames the loop writes for a byte stream, what is left of a failed write, how it ends, and what is unread. */
  datatype Outcome = Outcome(frames: seq<Frame>, torn: Option<seq<Byte>>, error: Option<CopyError>, rest: seq<Byte>)

  /** The copy loop, with k writes made so far. */
  function CopyStream(bytes: seq<Byte>, buffer: Buffer, k: nat, ctx: Context): Outcome
    decreases |bytes|
  {
    match DecodeFrame(bytes, ctx.cap)
    case Err(e) => Outcome([], None, Some(ReadFailed(e)), [])
    case Ok((f, rest)) =>
      var step := Handle(f, buffer, ctx);
      if GoesOn(step, k, ctx) then
        After(AsList(step.write), CopyStream(rest, step.buffer, CountWrite(k, step.write), ctx))
      else Ending(step, k, rest, ctx)
  }

  predicate GoesOn(step: Step, k: nat, ctx: Context)
  {
    step.Continue? && !Tears(step.write, k, ctx)
  }

  /** The loop returns: the write failed, the frame was refused, or it was Close. */
  function Ending(step: Step, k: nat, rest: seq<Byte>, ctx: Context): Outcome
  {
    Outcome(AsList(Whole(WrittenBy(step), k, ctx)), Part(WrittenBy(step), k, ctx), ErrorOf(step, k, ctx), rest)
  }

  function ErrorOf(step: Step, k: nat, ctx: Context): Option<CopyError>
  {
    if step.Failed? then Some(step.error) else if Tears(step.write, k, ctx) then Some(WriteFailed) else None
  }

  function After(wrote: seq<Frame>, tail: Outcome): Outcome
  {
    tail.(frames := wrote + tail.frames)
  }

  lemma AfterMore(a: seq<Frame>, b: seq<Frame>, tail: Outcome)
    ensures After(a + b, tail) == After(a, After(b, tail))
  {
    assert (a + b) + tail.frames == a + (b + tail.frames);
  }

  // ---------------------------------------------------------------- the writes

  /** The writes made for these frames, each masked with the mask drawn for that write. */
  function Encodings(frames: seq<Frame>, k: nat, masks: nat -> Mask): (r: seq<seq<Byte>>)
    ensures |r| == |frames|
  {
    seq(|frames|, i requires 0 <= i < |frames| => EncodedFrame(frames[i], true, masks(k + i)))
  }

  /** The writes of a connection after these frames, and the rest of a failed write, have been sent on it. */
  function Sent(writes: seq<seq<Byte>>, frames: seq<Frame>, torn: Option<seq<Byte>>, masks: nat -> Mask): seq<seq<Byte>>
  {
    writes + Encodings(frames, |writes|, masks) + TornList(torn)
  }

  function BytesSent(writes: seq<seq<Byte>>, frames: seq<Frame>, torn: Option<seq<Byte>>, masks: nat -> Mask): nat
  {
    |Joined(Encodings(frames, |writes|, masks))| + |Joined(TornList(torn))|
  }

  lemma SentMore(writes: seq<seq<Byte>>, frames: seq<Frame>, more: Option<Frame>, torn: Option<seq<Byte>>,
                 masks: nat -> Mask)
    ensures Sent(Sent(writes, frames, None, masks), AsList(more), torn, masks)
         == Sent(writes, frames + AsList(more), torn, masks)
    ensures BytesSent(writes, frames + AsList(more), torn, masks)
         == BytesSent(writes, frames, None, masks)
            + BytesSent(Sent(writes, frames, None, masks), AsList(more), torn, masks)
  {
    var k := |writes|;
    var a, b := Encodings(frames, k, masks), Encodings(AsList(more), k + |frames|, masks);
    EncodingsConcat(frames, AsList(more), k, masks);
    assert Sent(writes, frames, None, masks) == writes + a;
    Associative(writes, a, b);
    JoinedConcat(a, b);
  }

  lemma EncodingsConcat(a: seq<Frame>, b: seq<Frame>, k: nat, masks: nat -> Mask)
    ensures Encodings(a + b, k, masks) == Encodings(a, k, masks) + Encodings(b, k + |a|, masks)
  {
  }

  // ---------------------------------------------------------------- the loop

  /** The upstream connection, as the sequence of writes made to it. */
  class Writer {
    var writes: seq<seq<Byte>>

    constructor ()
      ensures writes == []
    {
      writes := [];
    }

    method Write(p: seq<Byte>, broken: Option<nat>) returns (n: nat, ok: bool)
      modifies this
      ensures var part := if broken.Some? then Torn(p, broken.value) else p;
              writes == old(writes) + [part] && n == |part| && (ok <==> broken == None)
    {
      var part := if broken.Some? then Torn(p, broken.value) else p;
      writes := writes + [part];
      n, ok := |part|, broken == None;
    }
  }

  /** One frame has been written if there is one to write, in part if the write fails; n counts the bytes. */
  ghost predicate Wrote(dst: Writer, writes: seq<seq<Byte>>, write: Option<Frame>, n: nat, ctx: Context)
    reads dst
  {
    Has(dst, writes, AsList(Whole(write, |writes|, ctx)), Part(write, |writes|, ctx), n, ctx)
  }

  /** The connection has these frames and this rest after the earlier writes, n bytes in all. */
  ghost predicate Has(dst: Writer, writes: seq<seq<Byte>>, frames: seq<Frame>, torn: Option<seq<Byte>>, n: nat,
                      ctx: Context)
    reads dst
  {
    dst.writes == Sent(writes, frames, torn, ctx.masks) && n == BytesSent(writes, frames, torn, ctx.masks)
  }

  method WriteFrame(dst: Writer, frame: Frame, ctx: Context) returns (n: nat, error: Option<CopyError>)
    modifies dst
    ensures Wrote(dst, old(dst.writes), Some(frame), n, ctx)
    ensures error == if Tears(Some(frame), |old(dst.writes)|, ctx) then Some(WriteFailed) else None
  {
    ghost var k := |dst.writes|;
    var encoded := BuildFrame(frame, true, ctx.masks(|dst.writes|));
    var ok;
    n, ok := dst.Write(encoded, ctx.broken(|dst.writes|));
    error := if ok then None else Some(WriteFailed);
    JoinedOne(dst.writes[k]);
    assert Encodings([frame], k, ctx.masks) == [encoded];
  }

  lemma JoinedOne(piece: seq<Byte>)
    ensures Joined([piece]) == piece && Joined<Byte>([]) == []
  {
    JoinedCons(piece, []);
  }

  method WriteToolInjectedText(dst: Writer, payload: seq<Byte>, ctx: Context) returns (n: nat, error: Option<CopyError>)
    modifies dst
    ensures Wrote(dst, old(dst.writes), WrittenBy(Inject(payload, ctx)), n, ctx)
    ensures error == ErrorOf(Inject(payload, ctx), |old(dst.writes)|, ctx)
  {
    var updated := ctx.inject(payload);
    if updated == None {
      return 0, Some(InjectFailed);
    }
    n, error := WriteFrame(dst, Frame(OP_TEXT, true, 0, updated.value), ctx);
  }

  method CopyClientToUpstream(dst: Writer, src: Reader, injectResponseTools: bool, ctx: Context)
    returns (written: nat, error: Option<CopyError>)
    modifies dst, src
    ensures !injectResponseTools ==>
              var broken := ctx.broken(|old(dst.writes)|);
              var copied := if broken.Some? then Torn(old(src.rest), broken.value) else old(src.rest);
              && dst.writes == old(dst.writes) + [copied] && written == |copied|
              && error == if broken.Some? then Some(WriteFailed) else None
    ensures injectResponseTools ==>
              var outcome := CopyStream(old(src.rest), Idle, |old(dst.writes)|, ctx);
              && Has(dst, old(dst.writes), outcome.frames, outcome.torn, written, ctx)
              && error == outcome.error && (error == None ==> src.rest == outcome.rest)
  {
    if !injectResponseTools {
      var ok;
      written, ok := dst.Write(src.rest, ctx.broken(|dst.writes|));
      src.rest := [];
      return written, if ok then None else Some(WriteFailed);
    }
    written := 0;
    error := None;
    var textFragments: seq<Byte> := [];
    var bufferingText := false;
    var done := false;
    ghost var wrote: seq<Frame>, torn: Option<seq<Byte>> := [], None;
    ghost var goal := CopyStream(src.rest, Idle, |dst.writes|, ctx);
    while !done
      invariant Has(dst, old(dst.writes), wrote, torn, written, ctx)
      invariant if done then goal == Outcome(wrote, torn, error, goal.rest) && (error == None ==> goal.rest == src.rest)
                else
                  goal == After(wrote, CopyStream(src.rest, BufferOf(bufferingText, textFragments), |dst.writes|, ctx))
                  && error == None && torn == None
      decreases !done, |src.rest|
    {
      ghost var before := wrote;
      var n;
      ghost var write;
      n, error, done, bufferingText, textFragments, write, torn :=
        CopyNext(dst, src, bufferingText, textFragments, ctx);
      written := written + n;
      wrote := wrote + AsList(write);
      SentMore(old(dst.writes), before, write, torn, ctx.masks);
      if !done {
        AfterMore(before, AsList(write),
                  CopyStream(src.rest, BufferOf(bufferingText, textFragments), |dst.writes|, ctx));
      }
    }
  }

  /** One turn of the loop: reads a frame, handles it, and says whether the loop returns. */
  method CopyNext(dst: Writer, src: Reader, buffering: bool, fragments: seq<Byte>, ctx: Context)
    returns (n: nat, error: Option<CopyError>, done: bool, bufferingText: bool, textFragments: seq<Byte>,
             ghost write: Option<Frame>, ghost torn: Option<seq<Byte>>)
    modifies dst, src
    ensures Has(dst, old(dst.writes), AsList(write), torn, n, ctx)
    ensures Turned(CopyStream(old(src.rest), BufferOf(buffering, fragments), |old(dst.writes)|, ctx),
                   CopyStream(src.rest, BufferOf(bufferingText, textFragments), |dst.writes|, ctx),
                   src.rest, write, torn, error, done)
    ensures !done ==> |src.rest| < |old(src.rest)|
  {
    ghost var bytes := src.rest;
    var frame := ReadFrame(src, ctx.cap);
    if frame.Err? {
      return 0, Some(ReadFailed(frame.error)), true, buffering, fragments, None, None;
    }
    n, error, done, bufferingText, textFragments, write, torn :=
      TakeFrame(dst, frame.value, buffering, fragments, ctx, bytes, src.rest);
  }

  /** The part of the turn after the frame has been read from the front of the stream. */
  method TakeFrame(dst: Writer, f: Frame, buffering: bool, fragments: seq<Byte>, ctx: Context,
                   ghost bytes: seq<Byte>, ghost rest: seq<Byte>)
    returns (n: nat, error: Option<CopyError>, done: bool, bufferingText: bool, textFragments: seq<Byte>,
             ghost write: Option<Frame>, ghost torn: Option<seq<Byte>>)
    requires DecodeFrame(bytes, ctx.cap) == Ok((f, rest))
    modifies dst
    ensures Has(dst, old(dst.writes), AsList(write), torn, n, ctx)
    ensures Turned(CopyStream(bytes, BufferOf(buffering, fragments), |old(dst.writes)|, ctx),
                   CopyStream(rest, BufferOf(bufferingText, textFragments), |dst.writes|, ctx),
                   rest, write, torn, error, done)
  {
    ghost var writes, buffer := dst.writes, BufferOf(buffering, fragments);
    ghost var k, step := |writes|, Handle(f, buffer, ctx);
    n, error, bufferingText, textFragments := CopyFrame(dst, f, buffering, fragments, ctx);
    done := error.Some? || f.opcode == OP_CLOSE;
    write, torn := Whole(WrittenBy(step), k, ctx), Part(WrittenBy(step), k, ctx);
    ghost var next := BufferOf(bufferingText, textFragments);
    Returns(f, buffer, k, ctx);
    WritesCounted(writes, write, torn, ctx.masks);
    StreamTurns(bytes, buffer, k, f, rest, step, next, |dst.writes|, ctx);
    OutcomeTurns(CopyStream(bytes, buffer, k, ctx), CopyStream(rest, next, |dst.writes|, ctx),
                 rest, step, k, done, ctx);
  }

  /** The outcome of the loop is what the turn wrote, then the tail that is the outcome of the rest. */
  ghost predicate Turned(outcome: Outcome, tail: Outcome, rest: seq<Byte>, write: Option<Frame>,
                         torn: Option<seq<Byte>>, error: Option<CopyError>, done: bool)
  {
    if done then
      outcome == Outcome(AsList(write), torn, error, outcome.rest) && (error == None ==> outcome.rest == rest)
    else
      outcome == After(AsList(write), tail) && error == None && torn == None
  }

  lemma OutcomeTurns(outcome: Outcome, tail: Outcome, rest: seq<Byte>, step: Step, k: nat, done: bool, ctx: Context)
    requires done <==> !GoesOn(step, k, ctx)
    requires outcome == if done then Ending(step, k, rest, ctx) else After(AsList(step.write), tail)
    ensures Turned(outcome, tail, rest, Whole(WrittenBy(step), k, ctx), Part(WrittenBy(step), k, ctx),
                   ErrorOf(step, k, ctx), done)
  {
  }

  lemma StreamTurns(bytes: seq<Byte>, buffer: Buffer, k: nat, f: Frame, rest: seq<Byte>, step: Step,
                    nextBuffer: Buffer, nextK: nat, ctx: Context)
    requires DecodeFrame(bytes, ctx.cap) == Ok((f, rest)) && step == Handle(f, buffer, ctx)
    requires GoesOn(step, k, ctx) ==> nextBuffer == step.buffer && nextK == CountWrite(k, step.write)
    ensures CopyStream(bytes, buffer, k, ctx)
         == if GoesOn(step, k, ctx) then After(AsList(step.write), CopyStream(rest, nextBuffer, nextK, ctx))
            else Ending(step, k, rest, ctx)
  {
  }

  lemma WritesCounted(writes: seq<seq<Byte>>, write: Option<Frame>, torn: Option<seq<Byte>>, masks: nat -> Mask)
    ensures torn == None ==> |Sent(writes, AsList(write), torn, masks)| == CountWrite(|writes|, write)
  {
  }

  lemma Returns(f: Frame, buffer: Buffer, k: nat, ctx: Context)
    ensures var step := Handle(f, buffer, ctx);
            GoesOn(step, k, ctx) <==> ErrorOf(step, k, ctx) == None && f.opcode != OP_CLOSE
  {
  }

  lemma CopyEnds(bytes: seq<Byte>, buffer: Buffer, k: nat, ctx: Context, f: Frame, rest: seq<Byte>)
    requires DecodeFrame(bytes, ctx.cap) == Ok((f, rest)) && !GoesOn(Handle(f, buffer, ctx), k, ctx)
    ensures CopyStream(bytes, buffer, k, ctx) == Ending(Handle(f, buffer, ctx), k, rest, ctx)
  {
  }

  lemma CopyGoesOn(bytes: seq<Byte>, buffer: Buffer, k: nat, ctx: Context, f: Frame, rest: seq<Byte>, step: Step)
    requires DecodeFrame(bytes, ctx.cap) == Ok((f, rest)) && step == Handle(f, buffer, ctx) && GoesOn(step, k, ctx)
    ensures CopyStream(bytes, buffer, k, ctx)
         == After(AsList(step.write), CopyStream(rest, step.buffer, CountWrite(k, step.write), ctx))
  {
  }

  function BufferOf(bufferingText: bool, textFragments: seq<Byte>): Buffer
  {
    if bufferingText then Buffering(textFragments) else Idle
  }

  /** The body of the loop once a frame has been read. */
  method CopyFrame(dst: Writer, frame: Frame, buffering: bool, fragments: seq<Byte>, ctx: Context)
    returns (n: nat, error: Option<CopyError>, bufferingText: bool, textFragments: seq<Byte>)
    modifies dst
    ensures var step := Handle(frame, BufferOf(buffering, fragments), ctx);
            && Wrote(dst, old(dst.writes), WrittenBy(step), n, ctx)
            && error == ErrorOf(step, |old(dst.writes)|, ctx)
            && (step.Continue? ==> step.buffer == BufferOf(bufferingText, textFragments))
  {
    n, error, bufferingText, textFragments := 0, None, buffering, fragments;
    if frame.opcode == OP_TEXT {
      if frame.rsv != 0 {
        n, error := WriteFrame(dst, frame, ctx);
        return;
      }
      if frame.fin {
        n, error := WriteToolInjectedText(dst, frame.payload, ctx);
        return;
      }
      bufferingText := true;
      textFragments := [];
      textFragments, error := AppendTextFragment(textFragments, frame.payload, ctx.cap);
    } else if frame.opcode == OP_CONTINUATION {
      if !bufferingText {
        n, error := WriteFrame(dst, frame, ctx);
        return;
      }
      textFragments, error := AppendTextFragment(textFragments, frame.payload, ctx.cap);
      if error.Some? || !frame.fin {
        return;
      }
      n, error := WriteToolInjectedText(dst, textFragments, ctx);
      textFragments := [];
      bufferingText := false;
    } else {
      if bufferingText && frame.opcode < OP_CLOSE {
        error := Some(Interrupted);
        return;
      }
      n, error := WriteFrame(dst, frame, ctx);
    }
  }

  method AppendTextFragment(dst: seq<Byte>, payload: seq<Byte>, cap: nat)
    returns (longer: seq<Byte>, error: Option<CopyError>)
    ensures |dst| + |payload| > cap ==> error == Some(MessageTooLarge) && longer == dst
    ensures |dst| + |payload| <= cap ==> error == None && longer == dst + payload
  {
    if |dst| + |payload| > cap {
      return dst, Some(MessageTooLarge);
    }
    return dst + payload, None;
  }
}
