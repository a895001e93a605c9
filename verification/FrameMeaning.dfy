/**
 What frame sequences mean, said from the side of the peer that sends them: messages cut into any pieces, and
 control frames. The events of section 5.4 of RFC 6455 and the observer's text messages are proved to be those.
 */
module FrameMeaning {
  import opened Prelude
  import opened UsageTypes
  import opened WebSocketFrames
  import opened WebSocketObserver
  import opened WebSocketRewriter
  import opened RewriterMeaning

  /** A message as its sender cuts it into pieces, or a control frame. */
  datatype Item =
    | Pieces(opcode: Opcode, rsv: Reserved, pieces: seq<seq<Byte>>)
    | Signal(frame: Frame)
  {
    predicate Valid() {
      match this
      case Pieces(opcode, _, pieces) => 1 <= opcode <= 7 && pieces != []
      case Signal(frame) => frame.opcode >= 8
    }

    function Meaning(): Event {
      match this
      case Pieces(opcode, rsv, pieces) => Message(opcode, rsv, Joined(pieces))
      case Signal(frame) => Control(frame)
    }
  }

  /** The opcode stands in the first frame, FIN in the last. */
  function Fragmented(opcode: Opcode, rsv: Reserved, pieces: seq<seq<Byte>>): seq<Frame>
  {
    if pieces == [] then []
    else [Frame(opcode, |pieces| == 1, rsv, pieces[0])] + Fragmented(0, 0, pieces[1..])
  }

  function FramesOf(items: seq<Item>): seq<Frame>
  {
    if items == [] then []
    else
      (match items[0]
       case Pieces(opcode, rsv, pieces) => Fragmented(opcode, rsv, pieces)
       case Signal(frame) => [frame]) + FramesOf(items[1..])
  }

  function Meanings(items: seq<Item>): seq<Event>
  {
    if items == [] then [] else [items[0].Meaning()] + Meanings(items[1..])
  }

  lemma {:induction false} ContinuationsMean(opcode: Opcode, rsv: Reserved, soFar: seq<Byte>, pieces: seq<seq<Byte>>,
                                             more: seq<Frame>)
    requires pieces != []
    ensures Events(Fragmented(0, 0, pieces) + more, Partial(opcode, rsv, soFar))
         == [Message(opcode, rsv, soFar + Joined(pieces))] + Events(more, NoMessage)
    ensures Sequenced(Fragmented(0, 0, pieces) + more, true) <==> Sequenced(more, false)
    decreases pieces
  {
    var f, rest := Frame(0, |pieces| == 1, 0, pieces[0]), Fragmented(0, 0, pieces[1..]);
    Associative([f], rest, more);
    assert ([f] + (rest + more))[1..] == rest + more;
    EventsStep(f, rest + more, Partial(opcode, rsv, soFar));
    if |pieces| == 1 {
      assert rest + more == more && Joined(pieces) == pieces[0] by {
        assert Joined(pieces[1..]) == [] && pieces[0] + [] == pieces[0];
      }
    } else {
      ContinuationsMean(opcode, rsv, soFar + pieces[0], pieces[1..], more);
      Associative(soFar, pieces[0], Joined(pieces[1..]));
    }
  }

  lemma MessageMeans(opcode: Opcode, rsv: Reserved, pieces: seq<seq<Byte>>, more: seq<Frame>)
    requires 1 <= opcode <= 7 && pieces != []
    ensures Events(Fragmented(opcode, rsv, pieces) + more, NoMessage)
         == [Message(opcode, rsv, Joined(pieces))] + Events(more, NoMessage)
    ensures Sequenced(Fragmented(opcode, rsv, pieces) + more, false) <==> Sequenced(more, false)
  {
    var f, rest := Frame(opcode, |pieces| == 1, rsv, pieces[0]), Fragmented(0, 0, pieces[1..]);
    Associative([f], rest, more);
    assert ([f] + (rest + more))[1..] == rest + more;
    EventsStep(f, rest + more, NoMessage);
    if |pieces| == 1 {
      assert rest + more == more && Joined(pieces) == pieces[0] by {
        assert Joined(pieces[1..]) == [] && pieces[0] + [] == pieces[0];
      }
    } else {
      ContinuationsMean(opcode, rsv, pieces[0], pieces[1..], more);
    }
  }

  /** Frames mean what was fragmented into them, however it was cut, and such frames are sequenced. */
  lemma {:induction false} FramesMeanWhatWasSent(items: seq<Item>)
    requires forall item <- items :: item.Valid()
    ensures Events(FramesOf(items), NoMessage) == Meanings(items) && Sequenced(FramesOf(items), false)
    decreases items
  {
    if items != [] {
      var more := FramesOf(items[1..]);
      FramesMeanWhatWasSent(items[1..]);
      assert items[0] in items && items[0].Valid();
      match items[0]
      case Pieces(opcode, rsv, pieces) =>
        MessageMeans(opcode, rsv, pieces, more);
      case Signal(frame) =>
        EventsStep(frame, more, NoMessage);
        assert ([frame] + more)[1..] == more;
    }
  }

  /** The payloads of the text messages among the events. */
  function Texts(events: seq<Event>): seq<seq<Byte>>
  {
    if events == [] then []
    else if events[0].Message? && events[0].opcode == 1 then [events[0].payload] + Texts(events[1..])
    else Texts(events[1..])
  }

  function OpenTextOf(open: Partial): Open
  {
    if open.NoMessage? then Nothing
    else if open.opcode == 1 then Text(open.soFar)
    else if open.opcode == 2 then Binary
    else Nothing
  }

  lemma TextsStep(first: seq<Event>, more: seq<Event>)
    requires |first| <= 1
    ensures Texts(first + more) == Texts(first) + Texts(more)
  {
    if first != [] {
      assert (first + more)[1..] == more && first[1..] == [];
    } else {
      assert first + more == more;
    }
  }

  /** The text message a frame completes, and what is open after it. */
  function TextOf(f: Frame, open: Open): seq<seq<Byte>>
  {
    if !f.fin then []
    else if f.opcode == 1 then [f.payload]
    else if f.opcode == 0 && open.Text? then [open.soFar + f.payload]
    else []
  }

  function OpenNext(f: Frame, open: Open): Open
  {
    if f.opcode > 2 then open
    else if f.fin then Nothing
    else if f.opcode == 1 then Text(f.payload)
    else if f.opcode == 2 then Binary
    else if open.Text? then Text(open.soFar + f.payload)
    else open
  }

  lemma TextMessagesStep(f: Frame, rest: seq<Frame>, open: Open)
    ensures TextMessages([f] + rest, open) == TextOf(f, open) + TextMessages(rest, OpenNext(f, open))
  {
    var frames, more := [f] + rest, TextMessages(rest, OpenNext(f, open));
    assert frames[0] == f && frames[1..] == rest;
    assert [] + more == more;
  }

  /** The two readings of one frame agree where it may stand. */
  lemma SameReading(f: Frame, open: Partial)
    requires 0 < f.opcode < OP_CLOSE ==> open.NoMessage?
    ensures Texts(EventOf(f, open)) == TextOf(f, OpenTextOf(open))
    ensures OpenTextOf(OpenAfter(f, open)) == OpenNext(f, OpenTextOf(open))
  {
    var events := EventOf(f, open);
    if events != [] {
      assert events[1..] == [] && Texts(events[1..]) == [];
    }
  }

  /** On sequenced frames the observer's text messages are those of section 5.4. */
  lemma {:induction false} TextMessagesAreEvents(frames: seq<Frame>, open: Partial)
    requires Sequenced(frames, open.Partial?)
    ensures TextMessages(frames, OpenTextOf(open)) == Texts(Events(frames, open))
    decreases frames
  {
    if frames != [] {
      var f, rest := frames[0], frames[1..];
      assert frames == [f] + rest;
      SequencedStep(f, rest, open);
      EventsStep(f, rest, open);
      TextsStep(EventOf(f, open), Events(rest, OpenAfter(f, open)));
      TextMessagesStep(f, rest, OpenTextOf(open));
      SameReading(f, open);
      TextMessagesAreEvents(rest, OpenAfter(f, open));
    }
  }

  /** What the observer of a sequenced stream must have reported is told by the text messages the peer sent. */
  lemma ObserverSeesWhatWasSent(bytes: seq<Byte>, items: seq<Item>, r: Report, probes: Probes)
    requires FramesIn(bytes, WIRE_LIMIT) == FramesOf(items) && forall item <- items :: item.Valid()
    ensures ReportsStream(r, bytes, probes) <==> Reports(r, Texts(Meanings(items)), probes)
  {
    FramesMeanWhatWasSent(items);
    TextMessagesAreEvents(FramesOf(items), NoMessage);
  }

  // ---------------------------------------------------------------- what the rewriter does with any frame

  /** The text message the frame completes for the rewriter: unfragmented, or buffered and ended by it. */
  function CompletedText(f: Frame, buffer: Buffer): Option<seq<Byte>>
  {
    if f.opcode == 1 && f.rsv == 0 && f.fin then Some(f.payload)
    else if f.opcode == 0 && f.fin && buffer.Buffering? then Some(buffer.text + f.payload)
    else None
  }

  /** The text the rewriter holds after a fragment that does not end its message. */
  function HeldText(f: Frame, buffer: Buffer): Option<seq<Byte>>
  {
    if f.opcode == 1 && f.rsv == 0 && !f.fin then Some(f.payload)
    else if f.opcode == 0 && !f.fin && buffer.Buffering? then Some(buffer.text + f.payload)
    else None
  }

  /**
   Every frame, in any place: a text completed within the cap is replaced by its transform in one final frame, a
   fragment is held, a data frame of another kind inside a held text is an error, and all else passes unchanged;
   a frame of opcode 8 ends the loop. An unfragmented text is not held to the cap, nor does it end a held one.
   */
  lemma EveryFrame(f: Frame, buffer: Buffer, ctx: Context)
    ensures var step, text, held := Handle(f, buffer, ctx), CompletedText(f, buffer), HeldText(f, buffer);
            if text.Some? then
              if f.opcode == 0 && |text.value| > ctx.cap then step == Failed(MessageTooLarge)
              else
                match ctx.inject(text.value)
                case None => step == Failed(InjectFailed)
                case Some(updated) =>
                  step == Continue(Some(Frame(1, true, 0, updated)), if f.opcode == 0 then Idle else buffer)
            else if held.Some? then
              step == if |held.value| > ctx.cap then Failed(MessageTooLarge) else Continue(None, Buffering(held.value))
            else if buffer.Buffering? && 2 <= f.opcode <= 7 then step == Failed(Interrupted)
            else if f.opcode == 8 then step == Finished(Some(f))
            else step == Continue(Some(f), buffer)
  {
    assert [] + f.payload == f.payload;
  }
}
