/**
 The push-style observer of the upstream-to-client direction as a machine on bytes, and what it must
 report: what parsing the whole stream into frames and text messages prescribes.
 */
module WebSocketObserver {
  import opened Prelude
  import opened WebSocketFrames
  import opened UsageTypes

  // ---------------------------------------------------------------- reference: the whole stream at once

  /** The frames a pull reader gets before it first fails, reading one frame after the other. */
  function FramesIn(bytes: seq<Byte>, cap: nat): seq<Frame>
    decreases |bytes|
  {
    match DecodeFrame(bytes, cap)
    case Ok((frame, rest)) => [frame] + FramesIn(rest, cap)
    case Err(_) => []
  }

  /** A data message of which the last fragment has not been seen. */
  datatype Open = Nothing | Binary | Text(soFar: seq<Byte>)

  /** Section 5.4: the text messages completed by the frames; a new data frame drops an open one. */
  function TextMessages(frames: seq<Frame>, open: Open): seq<seq<Byte>>
  {
    if frames == [] then []
    else
      var f := frames[0];
      if f.opcode == OP_TEXT then
        if f.fin then [f.payload] + TextMessages(frames[1..], Nothing)
        else TextMessages(frames[1..], Text(f.payload))
      else if f.opcode == OP_BINARY then
        TextMessages(frames[1..], if f.fin then Nothing else Binary)
      else if f.opcode == OP_CONTINUATION then
        match open
        case Text(soFar) =>
          if f.fin then [soFar + f.payload] + TextMessages(frames[1..], Nothing)
          else TextMessages(frames[1..], Text(soFar + f.payload))
        case _ => TextMessages(frames[1..], if f.fin then Nothing else open)
      else TextMessages(frames[1..], open)
  }

  predicate HitsLimit(message: seq<Byte>, probes: Probes)
  {
    |message| <= probes.cap && probes.limit(message)
  }

  /** One inspection per message: the limit first and only once, then the usage. */
  function CallsFor(messages: seq<seq<Byte>>, limitSeen: bool, probes: Probes): seq<Call>
  {
    if messages == [] then []
    else
      var m := messages[0];
      (if HitsLimit(m, probes) && !limitSeen then [OnLimit] else []) +
      (match probes.usage(m) case Some(u) => [OnUsage(u)] case None => []) +
      CallsFor(messages[1..], limitSeen || HitsLimit(m, probes), probes)
  }

  /** What an observer that sees exactly these text messages must have reported. */
  ghost predicate Reports(r: Report, messages: seq<seq<Byte>>, probes: Probes)
  {
    && r.calls == CallsFor(messages, false, probes)
    && (r.limitFound <==> exists i :: 0 <= i < |messages| && HitsLimit(messages[i], probes))
    && (r.found <==> exists i :: IsLastUsage(messages, i, r.usage, probes))
    && (!r.found ==> forall i :: 0 <= i < |messages| ==> probes.usage(messages[i]) == None)
  }

  /** What an observer of the whole stream must have reported. */
  ghost predicate ReportsStream(r: Report, bytes: seq<Byte>, probes: Probes)
  {
    Reports(r, TextMessages(FramesIn(bytes, WIRE_LIMIT), Nothing), probes)
  }

  /** Message i carries `usage` and no later message carries any. */
  predicate IsLastUsage(messages: seq<seq<Byte>>, i: int, usage: TokenUsage, probes: Probes)
  {
    && 0 <= i < |messages| && probes.usage(messages[i]) == Some(usage)
    && forall j :: i < j < |messages| ==> probes.usage(messages[j]) == None
  }

  // ---------------------------------------------------------------- the incremental machine, byte by byte

  /** The bounded copy of a text message kept for the limit test. */
  datatype LimitBuffer = LimitBuffer(bytes: seq<Byte>, tooLarge: bool)

  const EMPTY_LIMIT := LimitBuffer([], false)

  function LimitWrite(b: LimitBuffer, piece: seq<Byte>, cap: nat): LimitBuffer
  {
    if b.tooLarge || piece == [] then b
    else if |b.bytes| + |piece| > cap then LimitBuffer([], true)
    else LimitBuffer(b.bytes + piece, false)
  }

  datatype Message = Closed | OpenBinary | OpenText(text: seq<Byte>, limit: LimitBuffer)

  datatype Phase =
    | ReadingHeader(got: seq<Byte>)
    | ReadingPayload(opcode: Opcode, fin: bool, remaining: nat, masked: bool, mask: Mask, offset: nat)

  datatype State = State(phase: Phase, message: Message, report: Report)

  const START := State(ReadingHeader([]), Closed, NOTHING_REPORTED)

  function BeginMessage(opcode: Opcode, m: Message): Message
  {
    if opcode == OP_TEXT then OpenText([], EMPTY_LIMIT)
    else if opcode == OP_BINARY then OpenBinary
    else m
  }

  function Begin(header: Header, m: Message, r: Report): State
  {
    var opcode := OpcodeOf(header.first);
    State(
      ReadingPayload(opcode, FinOf(header.first), header.payloadLen, header.masked, header.mask, 0),
      BeginMessage(opcode, m),
      r)
  }

  function AddPayload(opcode: Opcode, m: Message, piece: seq<Byte>, cap: nat): Message
  {
    if m.OpenText? && (opcode == OP_TEXT || opcode == OP_CONTINUATION) then
      OpenText(m.text + piece, LimitWrite(m.limit, piece, cap))
    else m
  }

  function FinishText(text: seq<Byte>, limit: LimitBuffer, r: Report, probes: Probes): Report
  {
    var marked := if !limit.tooLarge && probes.limit(limit.bytes) then MarkLimit(r) else r;
    match probes.usage(text)
    case Some(u) => marked.(usage := u, found := true, calls := marked.calls + [OnUsage(u)])
    case None => marked
  }

  function Finish(opcode: Opcode, fin: bool, m: Message, r: Report, probes: Probes): State
  {
    if fin && (opcode == OP_TEXT || opcode == OP_BINARY || opcode == OP_CONTINUATION) then
      match m
      case OpenText(text, limit) =>
        State(ReadingHeader([]), Closed, if opcode == OP_BINARY then r else FinishText(text, limit, r, probes))
      case _ => State(ReadingHeader([]), Closed, r)
    else State(ReadingHeader([]), m, r)
  }

  /** A frame whose payload has been used up is finished at once. */
  function Settle(st: State, probes: Probes): State
  {
    if st.phase.ReadingPayload? && st.phase.remaining == 0 then
      Finish(st.phase.opcode, st.phase.fin, st.message, st.report, probes)
    else st
  }

  function HeaderByte(st: State, b: Byte): State
    requires st.phase.ReadingHeader?
  {
    var got := st.phase.got + [b];
    if |got| < 2 || |got| < FrameHeaderLen(got) then st.(phase := ReadingHeader(got))
    else
      match ParseFrameHeader(got)
      case Some(header) => Begin(header, st.message, st.report)
      case None => st.(phase := ReadingHeader([]))
  }

  function PayloadPiece(st: State, piece: seq<Byte>, cap: nat): State
    requires st.phase.ReadingPayload? && |piece| <= st.phase.remaining
  {
    var ph := st.phase;
    var decoded := if ph.masked then Masked(piece, ph.mask, ph.offset) else piece;
    st.(message := AddPayload(ph.opcode, st.message, decoded, cap),
        phase := ph.(remaining := ph.remaining - |piece|,
                     offset := if ph.masked then ph.offset + |piece| else ph.offset))
  }

  function Feed(st: State, b: Byte, probes: Probes): State
  {
    if st.phase.ReadingHeader? then Settle(HeaderByte(st, b), probes)
    else if st.phase.remaining == 0 then st
    else Settle(PayloadPiece(st, [b], probes.cap), probes)
  }

  function Run(st: State, bytes: seq<Byte>, probes: Probes): State
    decreases bytes
  {
    if bytes == [] then st else Run(Feed(st, bytes[0], probes), bytes[1..], probes)
  }

  lemma {:induction false} RunConcat(st: State, a: seq<Byte>, b: seq<Byte>, probes: Probes)
    ensures Run(st, a + b, probes) == Run(Run(st, a, probes), b, probes)
    decreases a
  {
    if a == [] {
      assert a + b == b;
    } else {
      assert (a + b)[1..] == a[1..] + b;
      RunConcat(Feed(st, a[0], probes), a[1..], b, probes);
    }
  }

  // ---------------------------------------------------------------- pieces of payload and header

  lemma LimitWriteSplit(b: LimitBuffer, x: seq<Byte>, y: seq<Byte>, cap: nat)
    ensures LimitWrite(LimitWrite(b, x, cap), y, cap) == LimitWrite(b, x + y, cap)
  {
    if x == [] {
      assert x + y == y;
    } else if y == [] {
      assert x + y == x;
    } else {
      assert b.bytes + (x + y) == (b.bytes + x) + y;
    }
  }

  lemma PieceSplit(st: State, x: seq<Byte>, y: seq<Byte>, cap: nat)
    requires st.phase.ReadingPayload? && |x| + |y| <= st.phase.remaining
    ensures PayloadPiece(PayloadPiece(st, x, cap), y, cap) == PayloadPiece(st, x + y, cap)
  {
    var ph := st.phase;
    MaskSplit(x, y, ph.mask, ph.offset);
    var dx := if ph.masked then Masked(x, ph.mask, ph.offset) else x;
    var dy := if ph.masked then Masked(y, ph.mask, ph.offset + |x|) else y;
    if st.message.OpenText? {
      LimitWriteSplit(st.message.limit, dx, dy, cap);
      assert (st.message.text + dx) + dy == st.message.text + (dx + dy);
    }
  }

  /** A chunk of payload at once is the chunk byte by byte. */
  lemma {:induction false} RunPayload(st: State, piece: seq<Byte>, probes: Probes)
    requires st.phase.ReadingPayload? && 0 < |piece| <= st.phase.remaining
    ensures Run(st, piece, probes) == Settle(PayloadPiece(st, piece, probes.cap), probes)
    decreases piece
  {
    assert [piece[0]] + piece[1..] == piece;
    if |piece| == 1 {
      assert piece == [piece[0]];
    } else {
      var next := PayloadPiece(st, [piece[0]], probes.cap);
      assert Feed(st, piece[0], probes) == next;
      RunPayload(next, piece[1..], probes);
      PieceSplit(st, [piece[0]], piece[1..], probes.cap);
    }
  }

  /** While the header is incomplete its bytes are only collected. */
  lemma {:induction false} RunPartialHeader(st: State, more: seq<Byte>, probes: Probes)
    requires st.phase.ReadingHeader?
    requires var all := st.phase.got + more; |all| < 2 || |all| < FrameHeaderLen(all)
    ensures Run(st, more, probes) == st.(phase := ReadingHeader(st.phase.got + more))
    decreases more
  {
    if more == [] {
      assert st.phase.got + more == st.phase.got;
    } else {
      var got := st.phase.got + [more[0]];
      assert got + more[1..] == st.phase.got + more;
      if |got| >= 2 {
        HeaderOfPrefix(got, got + more[1..]);
      }
      RunPartialHeader(st.(phase := ReadingHeader(got)), more[1..], probes);
    }
  }

  /** A complete header starts its frame. */
  lemma RunHeader(st: State, header: seq<Byte>, probes: Probes)
    requires st.phase == ReadingHeader([]) && |header| >= 2 && |header| == FrameHeaderLen(header)
    ensures Run(st, header, probes) == Settle(Begin(CompleteHeader(header), st.message, st.report), probes)
  {
    var last := |header| - 1;
    var front := header[..last];
    assert header == front + [header[last]];
    assert header[..|header|] == header;
    if |front| >= 2 {
      HeaderOfPrefix(front, header);
    }
    RunPartialHeader(st, front, probes);
    assert [] + front == front;
    RunConcat(st, front, [header[last]], probes);
    var collected := st.(phase := ReadingHeader(front));
    assert Run(collected, [header[last]], probes) == Feed(collected, header[last], probes);
  }

  // ---------------------------------------------------------------- whole frames

  /** The limit buffer of an open text message is a function of the text. */
  predicate Consistent(m: Message, cap: nat)
  {
    m.OpenText? ==> m.limit == LimitWrite(EMPTY_LIMIT, m.text, cap)
  }

  function OpenOf(m: Message): Open
  {
    match m
    case Closed => Nothing
    case OpenBinary => Binary
    case OpenText(text, _) => Text(text)
  }

  function AddFrame(f: Frame, m: Message, r: Report, probes: Probes): State
  {
    var begun := BeginMessage(f.opcode, m);
    Finish(f.opcode, f.fin, AddPayload(f.opcode, begun, f.payload, probes.cap), r, probes)
  }

  /** Over a complete frame, given as header, raw payload and what follows. */
  lemma RunFrame(m: Message, r: Report, front: seq<Byte>, raw: seq<Byte>, rest: seq<Byte>, probes: Probes)
    requires |front| >= 2 && |front| == FrameHeaderLen(front)
    requires |raw| == CompleteHeader(front).payloadLen
    ensures var frame := FrameFrom(CompleteHeader(front), raw);
            Run(State(ReadingHeader([]), m, r), front + (raw + rest), probes)
            == Run(AddFrame(frame, m, r, probes), rest, probes)
  {
    var st := State(ReadingHeader([]), m, r);
    var header := CompleteHeader(front);
    var begun := Begin(header, m, r);
    RunHeader(st, front, probes);
    RunConcat(st, front, raw + rest, probes);
    if raw == [] {
      assert raw + rest == rest;
      assert FrameFrom(header, raw).payload == [];
      AddNothing(begun.phase.opcode, begun.message, probes.cap);
    } else {
      RunConcat(begun, raw, rest, probes);
      RunPayload(begun, raw, probes);
    }
  }

  lemma AddNothing(opcode: Opcode, m: Message, cap: nat)
    ensures AddPayload(opcode, m, [], cap) == m
  {
    if m.OpenText? {
      assert m.text + [] == m.text;
    }
  }

  /** An incomplete frame at the end of the stream is not reported. */
  lemma RunCutFrame(m: Message, r: Report, bytes: seq<Byte>, probes: Probes)
    requires DecodeFrame(bytes, WIRE_LIMIT).Err?
    ensures Run(State(ReadingHeader([]), m, r), bytes, probes).report == r
  {
    var st := State(ReadingHeader([]), m, r);
    var need := FrameHeaderLen(bytes);
    assert [] + bytes == bytes;
    if |bytes| < 2 || |bytes| < need {
      RunPartialHeader(st, bytes, probes);
    } else {
      RunCutPayload(m, r, bytes, probes);
    }
  }

  lemma RunCutPayload(m: Message, r: Report, bytes: seq<Byte>, probes: Probes)
    requires |bytes| >= 2 && |bytes| >= FrameHeaderLen(bytes)
    requires DecodeFrame(bytes, WIRE_LIMIT).Err?
    ensures Run(State(ReadingHeader([]), m, r), bytes, probes).report == r
  {
    var st := State(ReadingHeader([]), m, r);
    var front, raw := SplitHeader(bytes);
    CodeIsShortest(bytes);
    var begun := Begin(CompleteHeader(front), m, r);
    RunHeader(st, front, probes);
    RunConcat(st, front, raw, probes);
    if raw != [] {
      RunPayload(begun, raw, probes);
    }
  }

  /** Reporting each completed message in turn. */
  function ReportAll(messages: seq<seq<Byte>>, r: Report, probes: Probes): Report
    decreases messages
  {
    if messages == [] then r
    else
      ReportAll(messages[1..], ReportOne(messages[0], r, probes), probes)
  }

  lemma AddFrameStep(f: Frame, m: Message, r: Report, rest: seq<Frame>, probes: Probes)
    requires Consistent(m, probes.cap)
    ensures var st := AddFrame(f, m, r, probes);
            && st.phase == ReadingHeader([]) && Consistent(st.message, probes.cap)
            && ReportAll(TextMessages([f] + rest, OpenOf(m)), r, probes)
               == ReportAll(TextMessages(rest, OpenOf(st.message)), st.report, probes)
  {
    var frames := [f] + rest;
    assert frames[0] == f && frames[1..] == rest;
    assert [] + f.payload == f.payload;
    if m.OpenText? {
      LimitWriteSplit(EMPTY_LIMIT, m.text, f.payload, probes.cap);
    }
    var open := OpenOf(m);
    if f.fin && f.opcode == OP_TEXT {
      assert TextMessages(frames, open) == [f.payload] + TextMessages(rest, Nothing);
    } else if f.fin && f.opcode == OP_CONTINUATION && m.OpenText? {
      assert TextMessages(frames, open) == [m.text + f.payload] + TextMessages(rest, Nothing);
    }
  }

  lemma {:induction false} RunReportsAll(m: Message, r: Report, bytes: seq<Byte>, probes: Probes)
    requires Consistent(m, probes.cap)
    ensures Run(State(ReadingHeader([]), m, r), bytes, probes).report
         == ReportAll(TextMessages(FramesIn(bytes, WIRE_LIMIT), OpenOf(m)), r, probes)
    decreases |bytes|
  {
    match DecodeFrame(bytes, WIRE_LIMIT)
    case Err(_) =>
      RunCutFrame(m, r, bytes, probes);
    case Ok((frame, rest)) =>
      var front, raw, _ := SplitFrame(bytes, WIRE_LIMIT);
      RunFrame(m, r, front, raw, rest, probes);
      AddFrameStep(frame, m, r, FramesIn(rest, WIRE_LIMIT), probes);
      var next := AddFrame(frame, m, r, probes);
      RunReportsAll(next.message, next.report, rest, probes);
  }

  function ReportOne(message: seq<Byte>, r: Report, probes: Probes): (after: Report)
    ensures after.limitFound == (r.limitFound || HitsLimit(message, probes))
  {
    assert [] + message == message;
    FinishText(message, LimitWrite(EMPTY_LIMIT, message, probes.cap), r, probes)
  }

  lemma {:induction false} ReportAllCalls(messages: seq<seq<Byte>>, r: Report, probes: Probes)
    ensures ReportAll(messages, r, probes).calls == r.calls + CallsFor(messages, r.limitFound, probes)
    decreases messages
  {
    if messages != [] {
      ReportAllCalls(messages[1..], ReportOne(messages[0], r, probes), probes);
    }
  }

  lemma {:induction false} ReportAllLimit(messages: seq<seq<Byte>>, r: Report, probes: Probes)
    ensures ReportAll(messages, r, probes).limitFound
       <==> r.limitFound || exists i :: 0 <= i < |messages| && HitsLimit(messages[i], probes)
    decreases messages
  {
    if messages != [] {
      var rest := messages[1..];
      ReportAllLimit(rest, ReportOne(messages[0], r, probes), probes);
      assert forall i :: 0 <= i < |rest| ==> rest[i] == messages[i + 1];
      assert forall i :: 0 < i < |messages| ==> messages[i] == rest[i - 1];
    }
  }

  lemma {:induction false} ReportAllUsage(messages: seq<seq<Byte>>, r: Report, probes: Probes)
    ensures var after := ReportAll(messages, r, probes);
            || (&& after.found && exists i :: IsLastUsage(messages, i, after.usage, probes))
            || (&& after.found == r.found && after.usage == r.usage
                && forall i :: 0 <= i < |messages| ==> probes.usage(messages[i]) == None)
    decreases messages
  {
    if messages != [] {
      var rest := messages[1..];
      var next := ReportOne(messages[0], r, probes);
      var after := ReportAll(rest, next, probes);
      ReportAllUsage(rest, next, probes);
      assert forall i :: 0 < i < |messages| ==> messages[i] == rest[i - 1];
      if i :| IsLastUsage(rest, i, after.usage, probes) {
        assert IsLastUsage(messages, i + 1, after.usage, probes);
      } else if probes.usage(messages[0]).Some? {
        assert IsLastUsage(messages, 0, after.usage, probes);
      }
    }
  }

  /** The incremental machine refines the parse of the whole stream. */
  lemma RunReportsStream(bytes: seq<Byte>, probes: Probes)
    ensures ReportsStream(Run(START, bytes, probes).report, bytes, probes)
  {
    RunReportsAll(Closed, NOTHING_REPORTED, bytes, probes);
    var messages := TextMessages(FramesIn(bytes, WIRE_LIMIT), Nothing);
    ReportAllCalls(messages, NOTHING_REPORTED, probes);
    ReportAllLimit(messages, NOTHING_REPORTED, probes);
    ReportAllUsage(messages, NOTHING_REPORTED, probes);
  }

  lemma RunExtends(bytes: seq<Byte>, more: seq<Byte>, probes: Probes)
    ensures Run(START, bytes + more, probes) == Run(Run(START, bytes, probes), more, probes)
    ensures ReportsStream(Run(START, bytes + more, probes).report, bytes + more, probes)
  {
    RunConcat(START, bytes, more, probes);
    RunReportsStream(bytes + more, probes);
  }

  // ---------------------------------------------------------------- agreement with the pull reader

  /** A pull reader with a size cap gets the same frames as long as none is larger than the cap. */
  lemma {:induction false} CapOnlyRefusesLarge(bytes: seq<Byte>, cap: nat)
    requires forall f <- FramesIn(bytes, WIRE_LIMIT) :: |f.payload| <= cap
    ensures FramesIn(bytes, cap) == FramesIn(bytes, WIRE_LIMIT)
    decreases |bytes|
  {
    match DecodeFrame(bytes, WIRE_LIMIT)
    case Ok((frame, rest)) =>
      assert frame in FramesIn(bytes, WIRE_LIMIT);
      CapOnlyRefusesLarge(rest, cap);
    case Err(_) =>
      if |bytes| >= 2 && |bytes| >= FrameHeaderLen(bytes) {
        CodeIsShortest(bytes);
      }
  }

  datatype Masking = Masking(masked: bool, mask: Mask)

  function EncodeAll(frames: seq<Frame>, maskings: seq<Masking>): seq<Byte>
    requires |maskings| == |frames|
  {
    if frames == [] then []
    else EncodedFrame(frames[0], maskings[0].masked, maskings[0].mask) + EncodeAll(frames[1..], maskings[1..])
  }

  lemma EncodedFrameReadBack(frame: Frame, masked: bool, mask: Mask, rest: seq<Byte>, cap: nat)
    requires frame.Valid() && |frame.payload| <= cap
    ensures FramesIn(EncodedFrame(frame, masked, mask) + rest, cap) == [frame] + FramesIn(rest, cap)
  {
    RoundTrip(frame, masked, mask, rest, cap);
  }

  lemma EncodeAllStep(frames: seq<Frame>, maskings: seq<Masking>)
    requires |maskings| == |frames| && frames != []
    ensures EncodeAll(frames, maskings)
         == EncodedFrame(frames[0], maskings[0].masked, maskings[0].mask) + EncodeAll(frames[1..], maskings[1..])
  {
  }

  lemma {:induction false} EncodedFramesReadBack(frames: seq<Frame>, maskings: seq<Masking>, cap: nat)
    requires |maskings| == |frames|
    requires forall f <- frames :: f.Valid() && |f.payload| <= cap
    ensures FramesIn(EncodeAll(frames, maskings), cap) == frames
    decreases frames
  {
    if frames == [] {
      assert EncodeAll(frames, maskings) == [];
    } else {
      var tail := EncodeAll(frames[1..], maskings[1..]);
      assert frames == [frames[0]] + frames[1..];
      EncodeAllStep(frames, maskings);
      EncodedFramesReadBack(frames[1..], maskings[1..], cap);
      EncodedFrameReadBack(frames[0], maskings[0].masked, maskings[0].mask, tail, cap);
    }
  }
}
