/**
 The observer fed in chunks. The bytes of a text go through a pipe to a JSON decoder, and a write to the
 pipe returns only when the decoder has taken all of it. A decoder that has its value reads no more, so
 a write that comes later never returns. The cut of the stream decides whether there is one.
 */
module ObserverChunks {
  import opened Prelude
  import opened WebSocketFrames
  import opened UsageTypes
  import opened WebSocketObserver

  // ---------------------------------------------------------------- the pipe

  /** The decoder has returned if some prefix of what it has read is complete. */
  predicate Decided(read: seq<Byte>, probes: Probes)
  {
    exists k :: 0 < k <= |read| && probes.complete(read[..k])
  }

  /** The write returns: the decoder, having read this much, takes the whole piece, as much at a time as it has room. */
  predicate Accepts(read: seq<Byte>, piece: seq<Byte>, probes: Probes)
    decreases |piece|
  {
    piece == [] ||
    (&& !Decided(read, probes)
     && var n := if |piece| <= probes.room(|read|) then |piece| else probes.room(|read|);
        Accepts(read + piece[..n], piece[n..], probes))
  }

  /** Something of the text comes after the decoder has returned. */
  predicate DecidedEarly(text: seq<Byte>, probes: Probes)
  {
    text != [] && Decided(text[..|text| - 1], probes)
  }

  lemma DecidedLasts(read: seq<Byte>, more: seq<Byte>, probes: Probes)
    requires Decided(read, probes)
    ensures Decided(read + more, probes)
  {
    var k :| 0 < k <= |read| && probes.complete(read[..k]);
    assert (read + more)[..k] == read[..k];
  }

  lemma EarlyLasts(text: seq<Byte>, more: seq<Byte>, probes: Probes)
    requires DecidedEarly(text, probes)
    ensures DecidedEarly(text + more, probes)
  {
    if more == [] {
      assert text + more == text;
    } else {
      var front := text[..|text| - 1];
      assert (text + more)[..|text + more| - 1] == front + ([text[|text| - 1]] + more[..|more| - 1]);
      DecidedLasts(front, [text[|text| - 1]] + more[..|more| - 1], probes);
    }
  }

  /** A write is not taken only if the decoder returns before its last byte. */
  lemma {:induction false} RefusedIsEarly(read: seq<Byte>, piece: seq<Byte>, probes: Probes)
    requires !Accepts(read, piece, probes)
    ensures piece != [] && DecidedEarly(read + piece, probes)
    decreases |piece|
  {
    var front := piece[..|piece| - 1];
    if Decided(read, probes) {
      DecidedLasts(read, front, probes);
      assert (read + piece)[..|read + piece| - 1] == read + front;
    } else {
      var n := if |piece| <= probes.room(|read|) then |piece| else probes.room(|read|);
      RefusedIsEarly(read + piece[..n], piece[n..], probes);
      assert (read + piece[..n]) + piece[n..] == read + piece;
    }
  }

  // ---------------------------------------------------------------- which writes return

  /** A frame is never left waiting without payload to come. */
  predicate Going(st: State)
  {
    st.phase.ReadingPayload? ==> st.phase.remaining > 0
  }

  /** The payload to come belongs to an open text message. */
  predicate CarriesText(st: State)
  {
    && st.phase.ReadingPayload? && st.message.OpenText?
    && (st.phase.opcode == OP_TEXT || st.phase.opcode == OP_CONTINUATION)
  }

  function UnmaskedAt(masked: bool, mask: Mask, offset: nat, piece: seq<Byte>): (r: seq<Byte>)
    ensures |r| == |piece|
  {
    if masked then Masked(piece, mask, offset) else piece
  }

  function Unmasked(ph: Phase, piece: seq<Byte>): (r: seq<Byte>)
    requires ph.ReadingPayload?
    ensures |r| == |piece|
  {
    UnmaskedAt(ph.masked, ph.mask, ph.offset, piece)
  }

  /** A piece of one frame's payload that is handed on at once. */
  predicate PieceReturns(st: State, piece: seq<Byte>, probes: Probes)
  {
    CarriesText(st) ==> Accepts(st.message.text, Unmasked(st.phase, piece), probes)
  }

  /** The chunk is taken header byte by header byte and payload piece by payload piece. */
  predicate ChunkReturns(st: State, p: seq<Byte>, probes: Probes)
    requires Going(st)
    decreases |p|
  {
    p == [] ||
    if st.phase.ReadingHeader? then
      GoesOn(st, [p[0]], probes);
      ChunkReturns(Run(st, [p[0]], probes), p[1..], probes)
    else
      var n := if |p| <= st.phase.remaining then |p| else st.phase.remaining;
      GoesOn(st, p[..n], probes);
      PieceReturns(st, p[..n], probes) && ChunkReturns(Run(st, p[..n], probes), p[n..], probes)
  }

  lemma {:induction false} GoesOn(st: State, bytes: seq<Byte>, probes: Probes)
    requires Going(st)
    ensures Going(Run(st, bytes, probes))
    decreases bytes
  {
    if bytes != [] {
      GoesOn(Feed(st, bytes[0], probes), bytes[1..], probes);
    }
  }

  predicate ChunksReturn(st: State, chunks: seq<seq<Byte>>, probes: Probes)
    requires Going(st)
    decreases chunks
  {
    chunks == [] ||
    (GoesOn(st, chunks[0], probes);
     ChunkReturns(st, chunks[0], probes) && ChunksReturn(Run(st, chunks[0], probes), chunks[1..], probes))
  }

  /** The report after these writes, if each of them returns. */
  function Observe(chunks: seq<seq<Byte>>, probes: Probes): Option<Report>
  {
    if ChunksReturn(START, chunks, probes) then Some(Run(START, Joined(chunks), probes).report) else None
  }

  // ---------------------------------------------------------------- byte by byte

  /** Some byte of a text comes after its decoder has returned. */
  predicate ComesLate(st: State, bytes: seq<Byte>, probes: Probes)
    decreases bytes
  {
    bytes != [] &&
    ((CarriesText(st) && Decided(st.message.text, probes)) || ComesLate(Feed(st, bytes[0], probes), bytes[1..], probes))
  }

  lemma {:induction false} LateConcat(st: State, a: seq<Byte>, b: seq<Byte>, probes: Probes)
    ensures ComesLate(st, a + b, probes) <==> ComesLate(st, a, probes) || ComesLate(Run(st, a, probes), b, probes)
    decreases a
  {
    if a == [] {
      assert a + b == b;
    } else {
      assert (a + b)[1..] == a[1..] + b;
      LateConcat(Feed(st, a[0], probes), a[1..], b, probes);
    }
  }

  /** The phase after a piece of payload. */
  function Past(ph: Phase, n: nat): Phase
    requires ph.ReadingPayload? && n <= ph.remaining
  {
    ph.(remaining := ph.remaining - n, offset := if ph.masked then ph.offset + n else ph.offset)
  }

  lemma MaskAtSplit(masked: bool, mask: Mask, offset: nat, a: seq<Byte>, b: seq<Byte>)
    ensures UnmaskedAt(masked, mask, offset, a + b)
         == UnmaskedAt(masked, mask, offset, a) + UnmaskedAt(masked, mask, if masked then offset + |a| else offset, b)
  {
    if masked {
      MaskSplit(a, b, mask, offset);
    }
  }

  lemma UnmaskedSplit(ph: Phase, a: seq<Byte>, b: seq<Byte>)
    requires ph.ReadingPayload? && |a| <= ph.remaining
    ensures Unmasked(ph, a + b) == Unmasked(ph, a) + Unmasked(Past(ph, |a|), b)
  {
    MaskAtSplit(ph.masked, ph.mask, ph.offset, a, b);
  }

  lemma DecidedBefore(text: seq<Byte>, piece: seq<Byte>, probes: Probes)
    requires piece != []
    ensures Decided(text, probes) ==> DecidedEarly(text + piece, probes)
    ensures |piece| == 1 ==> (DecidedEarly(text + piece, probes) <==> Decided(text, probes))
  {
    var whole, front := text + piece, piece[..|piece| - 1];
    assert whole[..|whole| - 1] == text + front;
    if |piece| == 1 {
      assert text + front == text;
    }
    if Decided(text, probes) {
      DecidedLasts(text, front, probes);
    }
  }

  lemma PieceText(st: State, piece: seq<Byte>, cap: nat)
    requires st.phase.ReadingPayload? && |piece| <= st.phase.remaining
    ensures var next := PayloadPiece(st, piece, cap);
            && next.phase == Past(st.phase, |piece|) && CarriesText(next) == CarriesText(st)
            && (CarriesText(st) ==> next.message.text == st.message.text + Unmasked(st.phase, piece))
  {
  }

  lemma NextByte(st: State, piece: seq<Byte>, probes: Probes)
    requires st.phase.ReadingPayload? && 1 < |piece| <= st.phase.remaining
    ensures var next := Feed(st, piece[0], probes);
            && next.phase == Past(st.phase, 1) && CarriesText(next) == CarriesText(st)
            && (CarriesText(st) ==>
                  next.message.text + Unmasked(next.phase, piece[1..]) == st.message.text + Unmasked(st.phase, piece))
  {
    var first, rest := [piece[0]], piece[1..];
    PieceText(st, first, probes.cap);
    assert first + rest == piece;
    UnmaskedSplit(st.phase, first, rest);
    if CarriesText(st) {
      Associative(st.message.text, Unmasked(st.phase, first), Unmasked(Past(st.phase, 1), rest));
    }
  }

  /** Within one frame a byte comes late exactly when the text up to the end of this piece is decided early. */
  lemma {:induction false} LatePayload(st: State, piece: seq<Byte>, probes: Probes)
    requires st.phase.ReadingPayload? && 0 < |piece| <= st.phase.remaining
    ensures ComesLate(st, piece, probes) <==>
              CarriesText(st) && DecidedEarly(st.message.text + Unmasked(st.phase, piece), probes)
    decreases piece
  {
    if CarriesText(st) {
      DecidedBefore(st.message.text, Unmasked(st.phase, piece), probes);
    }
    if |piece| == 1 {
      assert !ComesLate(Feed(st, piece[0], probes), piece[1..], probes);
    } else {
      NextByte(st, piece, probes);
      LatePayload(Feed(st, piece[0], probes), piece[1..], probes);
    }
  }

  lemma {:induction false} StuckIsLate(st: State, p: seq<Byte>, probes: Probes)
    requires Going(st) && !ChunkReturns(st, p, probes)
    ensures ComesLate(st, p, probes)
    decreases |p|
  {
    var n := if st.phase.ReadingHeader? then 1 else if |p| <= st.phase.remaining then |p| else st.phase.remaining;
    assert p == p[..n] + p[n..];
    LateConcat(st, p[..n], p[n..], probes);
    GoesOn(st, p[..n], probes);
    if st.phase.ReadingHeader? {
      assert p[..n] == [p[0]];
      StuckIsLate(Run(st, p[..n], probes), p[n..], probes);
    } else if PieceReturns(st, p[..n], probes) {
      StuckIsLate(Run(st, p[..n], probes), p[n..], probes);
    } else {
      RefusedIsEarly(st.message.text, Unmasked(st.phase, p[..n]), probes);
      LatePayload(st, p[..n], probes);
    }
  }

  lemma {:induction false} StuckAnywhereIsLate(st: State, chunks: seq<seq<Byte>>, probes: Probes)
    requires Going(st) && !ChunksReturn(st, chunks, probes)
    ensures ComesLate(st, Joined(chunks), probes)
    decreases chunks
  {
    LateConcat(st, chunks[0], Joined(chunks[1..]), probes);
    GoesOn(st, chunks[0], probes);
    if !ChunkReturns(st, chunks[0], probes) {
      StuckIsLate(st, chunks[0], probes);
    } else {
      StuckAnywhereIsLate(Run(st, chunks[0], probes), chunks[1..], probes);
    }
  }

  /** The cut into single bytes. */
  function Singly(bytes: seq<Byte>): (r: seq<seq<Byte>>)
    ensures Joined(r) == bytes
  {
    if bytes == [] then [] else
      JoinedCons([bytes[0]], Singly(bytes[1..]));
      [[bytes[0]]] + Singly(bytes[1..])
  }

  lemma {:induction false} LateIsStuckSingly(st: State, bytes: seq<Byte>, probes: Probes)
    requires Going(st) && ComesLate(st, bytes, probes)
    ensures !ChunksReturn(st, Singly(bytes), probes)
    decreases bytes
  {
    var b, rest := [bytes[0]], bytes[1..];
    assert Singly(bytes)[1..] == Singly(rest);
    GoesOn(st, b, probes);
    assert Run(st, b, probes) == Feed(st, bytes[0], probes);
    if CarriesText(st) && Decided(st.message.text, probes) {
      assert |Unmasked(st.phase, b)| == 1;
      assert !PieceReturns(st, b, probes);
      assert b[..1] == b;
    } else {
      LateIsStuckSingly(Feed(st, bytes[0], probes), rest, probes);
    }
  }

  // ---------------------------------------------------------------- the texts of a stream

  /** The frames of a stream, with what has arrived of the last one if its header is complete. */
  function FramesBegun(bytes: seq<Byte>): seq<Frame>
    decreases |bytes|
  {
    match DecodeFrame(bytes, WIRE_LIMIT)
    case Ok((frame, rest)) => [frame] + FramesBegun(rest)
    case Err(_) =>
      if |bytes| < 2 || |bytes| < FrameHeaderLen(bytes) then []
      else [FrameFrom(CompleteHeader(bytes), bytes[FrameHeaderLen(bytes)..]).(fin := false)]
  }

  function TextOf(open: Open): seq<seq<Byte>>
  {
    match open
    case Text(soFar) => [soFar]
    case _ => []
  }

  /** Every text that was begun: complete, dropped, or still open at the end. */
  function TextsBegun(frames: seq<Frame>, open: Open): seq<seq<Byte>>
  {
    if frames == [] then TextOf(open)
    else
      var f, rest := frames[0], frames[1..];
      if f.opcode == OP_TEXT then
        TextOf(open) +
        if f.fin then [f.payload] + TextsBegun(rest, Nothing) else TextsBegun(rest, Text(f.payload))
      else if f.opcode == OP_BINARY then
        TextOf(open) + TextsBegun(rest, if f.fin then Nothing else Binary)
      else if f.opcode == OP_CONTINUATION then
        match open
        case Text(soFar) =>
          if f.fin then [soFar + f.payload] + TextsBegun(rest, Nothing)
          else TextsBegun(rest, Text(soFar + f.payload))
        case _ => TextsBegun(rest, if f.fin then Nothing else open)
      else TextsBegun(rest, open)
  }

  predicate AnyEarly(texts: seq<seq<Byte>>, probes: Probes)
  {
    exists text :: text in texts && DecidedEarly(text, probes)
  }

  predicate OpenEarly(m: Message, probes: Probes)
  {
    m.OpenText? && DecidedEarly(m.text, probes)
  }

  /** The frame carries a byte that comes late. */
  predicate FrameLate(f: Frame, m: Message, probes: Probes)
  {
    var begun := BeginMessage(f.opcode, m);
    && f.payload != [] && begun.OpenText? && (f.opcode == OP_TEXT || f.opcode == OP_CONTINUATION)
    && DecidedEarly(begun.text + f.payload, probes)
  }

  lemma {:induction false} PartialNotLate(st: State, more: seq<Byte>, probes: Probes)
    requires st.phase.ReadingHeader?
    requires var all := st.phase.got + more; |all| < 2 || |all| < FrameHeaderLen(all)
    ensures !ComesLate(st, more, probes)
    decreases more
  {
    if more != [] {
      var got := st.phase.got + [more[0]];
      assert got + more[1..] == st.phase.got + more;
      if |got| >= 2 {
        HeaderOfPrefix(got, got + more[1..]);
      }
      PartialNotLate(st.(phase := ReadingHeader(got)), more[1..], probes);
    }
  }

  lemma HeaderNotLate(st: State, header: seq<Byte>, probes: Probes)
    requires st.phase == ReadingHeader([]) && |header| >= 2 && |header| == FrameHeaderLen(header)
    ensures !ComesLate(st, header, probes)
  {
    var last := |header| - 1;
    var front := header[..last];
    assert header == front + [header[last]];
    if |front| >= 2 {
      HeaderOfPrefix(front, header);
    }
    assert [] + front == front;
    RunPartialHeader(st, front, probes);
    PartialNotLate(st, front, probes);
    LateConcat(st, front, [header[last]], probes);
    assert !ComesLate(Feed(st.(phase := ReadingHeader(front)), header[last], probes), [], probes);
  }

  /** Over the header and the payload, or the part of it that has arrived. */
  lemma FrameLateExactly(m: Message, r: Report, front: seq<Byte>, raw: seq<Byte>, probes: Probes)
    requires |front| >= 2 && |front| == FrameHeaderLen(front)
    requires |raw| <= CompleteHeader(front).payloadLen
    ensures ComesLate(State(ReadingHeader([]), m, r), front + raw, probes) <==>
              FrameLate(FrameFrom(CompleteHeader(front), raw), m, probes)
  {
    var st := State(ReadingHeader([]), m, r);
    var header := CompleteHeader(front);
    HeaderNotLate(st, front, probes);
    RunHeader(st, front, probes);
    LateConcat(st, front, raw, probes);
    if raw == [] {
      assert FrameFrom(header, raw).payload == [];
    } else {
      var begun := Begin(header, m, r);
      LatePayload(begun, raw, probes);
      assert Unmasked(begun.phase, raw) == FrameFrom(header, raw).payload;
    }
  }

  lemma {:induction false} OpenTextCounts(frames: seq<Frame>, text: seq<Byte>, probes: Probes)
    requires DecidedEarly(text, probes)
    ensures AnyEarly(TextsBegun(frames, Text(text)), probes)
  {
    var texts := TextsBegun(frames, Text(text));
    if frames == [] {
      assert texts == [text];
    } else {
      var f, rest := frames[0], frames[1..];
      if f.opcode == OP_TEXT || f.opcode == OP_BINARY {
        assert text in texts;
      } else if f.opcode == OP_CONTINUATION {
        EarlyLasts(text, f.payload, probes);
        if f.fin {
          assert text + f.payload in texts;
        } else {
          OpenTextCounts(rest, text + f.payload, probes);
        }
      } else {
        OpenTextCounts(rest, text, probes);
      }
    }
  }

  /** One frame more, in terms of the machine's message. */
  lemma TextsStep(f: Frame, m: Message, r: Report, rest: seq<Frame>, probes: Probes)
    ensures var next := AddFrame(f, m, r, probes).message;
            && (AnyEarly(TextsBegun([f] + rest, OpenOf(m)), probes) <==>
                  OpenEarly(m, probes) || FrameLate(f, m, probes) || AnyEarly(TextsBegun(rest, OpenOf(next)), probes))
            && (OpenEarly(next, probes) ==> OpenEarly(m, probes) || FrameLate(f, m, probes))
  {
    var frames := [f] + rest;
    assert frames[0] == f && frames[1..] == rest;
    assert [] + f.payload == f.payload;
    var next := AddFrame(f, m, r, probes).message;
    var more := TextsBegun(rest, OpenOf(next));
    if f.opcode == OP_TEXT {
      TextFrameStep(f, m, more, probes);
      if !f.fin && DecidedEarly(f.payload, probes) {
        OpenTextCounts(rest, f.payload, probes);
      }
    } else if f.opcode == OP_CONTINUATION && m.OpenText? {
      ContinuationStep(f, m, more, probes);
      if !f.fin && DecidedEarly(m.text + f.payload, probes) {
        OpenTextCounts(rest, m.text + f.payload, probes);
      }
    } else if m.OpenText? && DecidedEarly(m.text, probes) {
      OpenTextCounts(frames, m.text, probes);
    }
  }

  lemma TextFrameStep(f: Frame, m: Message, more: seq<seq<Byte>>, probes: Probes)
    requires f.opcode == OP_TEXT
    ensures FrameLate(f, m, probes) <==> DecidedEarly(f.payload, probes)
    ensures AnyEarly(TextOf(OpenOf(m)) + ([f.payload] + more), probes) <==>
              OpenEarly(m, probes) || DecidedEarly(f.payload, probes) || AnyEarly(more, probes)
    ensures AnyEarly(TextOf(OpenOf(m)) + more, probes) <==> OpenEarly(m, probes) || AnyEarly(more, probes)
  {
    assert [] + f.payload == f.payload;
    EarlyOfConcat(TextOf(OpenOf(m)), [f.payload] + more, probes);
    EarlyOfConcat([f.payload], more, probes);
    EarlyOfConcat(TextOf(OpenOf(m)), more, probes);
    OneEarly(f.payload, probes);
    OpenEarlyIsEarly(m, probes);
  }

  lemma ContinuationStep(f: Frame, m: Message, more: seq<seq<Byte>>, probes: Probes)
    requires f.opcode == OP_CONTINUATION && m.OpenText?
    ensures OpenEarly(m, probes) || FrameLate(f, m, probes) <==> DecidedEarly(m.text + f.payload, probes)
    ensures AnyEarly([m.text + f.payload] + more, probes) <==>
              DecidedEarly(m.text + f.payload, probes) || AnyEarly(more, probes)
  {
    if DecidedEarly(m.text, probes) {
      EarlyLasts(m.text, f.payload, probes);
    }
    if f.payload == [] {
      assert m.text + f.payload == m.text;
    }
    EarlyOfConcat([m.text + f.payload], more, probes);
    OneEarly(m.text + f.payload, probes);
  }

  lemma EarlyOfConcat(a: seq<seq<Byte>>, b: seq<seq<Byte>>, probes: Probes)
    ensures AnyEarly(a + b, probes) <==> AnyEarly(a, probes) || AnyEarly(b, probes)
  {
  }

  lemma OneEarly(text: seq<Byte>, probes: Probes)
    ensures AnyEarly([text], probes) <==> DecidedEarly(text, probes)
  {
    assert text in [text];
  }

  lemma OpenEarlyIsEarly(m: Message, probes: Probes)
    ensures AnyEarly(TextOf(OpenOf(m)), probes) <==> OpenEarly(m, probes)
  {
    if m.OpenText? {
      OneEarly(m.text, probes);
    }
  }

  lemma FrameThenLate(m: Message, r: Report, front: seq<Byte>, raw: seq<Byte>, rest: seq<Byte>, probes: Probes)
    requires |front| >= 2 && |front| == FrameHeaderLen(front) && |raw| == CompleteHeader(front).payloadLen
    ensures var f := FrameFrom(CompleteHeader(front), raw);
            var next := AddFrame(f, m, r, probes);
            && next.phase == ReadingHeader([])
            && (ComesLate(State(ReadingHeader([]), m, r), front + (raw + rest), probes) <==>
                  FrameLate(f, m, probes) || ComesLate(next, rest, probes))
  {
    var st := State(ReadingHeader([]), m, r);
    FrameLateExactly(m, r, front, raw, probes);
    RunFrame(m, r, front, raw, [], probes);
    assert raw + [] == raw;
    Associative(front, raw, rest);
    LateConcat(st, front + raw, rest, probes);
  }

  /** A byte comes late in the stream exactly when some text that it begins, or goes on with, is decided early. */
  lemma {:induction false} RunLate(m: Message, r: Report, bytes: seq<Byte>, probes: Probes)
    ensures ComesLate(State(ReadingHeader([]), m, r), bytes, probes) || OpenEarly(m, probes) <==>
              AnyEarly(TextsBegun(FramesBegun(bytes), OpenOf(m)), probes)
    decreases |bytes|
  {
    match DecodeFrame(bytes, WIRE_LIMIT)
    case Err(_) => CutLate(m, r, bytes, probes);
    case Ok((f, after)) =>
      var front, raw, rest := SplitFrame(bytes, WIRE_LIMIT);
      FrameThenLate(m, r, front, raw, rest, probes);
      var next := AddFrame(f, m, r, probes);
      RunLate(next.message, next.report, rest, probes);
      TextsStep(f, m, r, FramesBegun(rest), probes);
  }

  lemma CutLate(m: Message, r: Report, bytes: seq<Byte>, probes: Probes)
    requires DecodeFrame(bytes, WIRE_LIMIT).Err?
    ensures ComesLate(State(ReadingHeader([]), m, r), bytes, probes) || OpenEarly(m, probes) <==>
              AnyEarly(TextsBegun(FramesBegun(bytes), OpenOf(m)), probes)
  {
    var st := State(ReadingHeader([]), m, r);
    assert [] + bytes == bytes;
    if |bytes| < 2 || |bytes| < FrameHeaderLen(bytes) {
      PartialNotLate(st, bytes, probes);
      OpenEarlyIsEarly(m, probes);
    } else {
      CodeIsShortest(bytes);
      var front, raw := SplitHeader(bytes);
      assert front == bytes[..FrameHeaderLen(bytes)] && raw == bytes[FrameHeaderLen(bytes)..];
      var f := FrameFrom(CompleteHeader(front), raw).(fin := false);
      FrameLateExactly(m, r, front, raw, probes);
      TextsStep(f, m, r, [], probes);
      OpenEarlyIsEarly(AddFrame(f, m, r, probes).message, probes);
      assert FramesBegun(bytes) == [f] + [];
    }
  }

  // ---------------------------------------------------------------- any cut of the stream

  /** When every write returns, the report is that of the whole stream. */
  lemma ObservedReportsStream(chunks: seq<seq<Byte>>, probes: Probes)
    requires Observe(chunks, probes).Some?
    ensures ReportsStream(Observe(chunks, probes).value, Joined(chunks), probes)
  {
    RunReportsStream(Joined(chunks), probes);
  }

  /** No text that the stream begins goes on after its decoder has returned. */
  predicate Harmless(bytes: seq<Byte>, probes: Probes)
  {
    !AnyEarly(TextsBegun(FramesBegun(bytes), Nothing), probes)
  }

  /** If the stream is harmless, every write returns however it is cut. */
  lemma HarmlessIsObserved(chunks: seq<seq<Byte>>, probes: Probes)
    requires Harmless(Joined(chunks), probes)
    ensures Observe(chunks, probes).Some?
  {
    RunLate(Closed, NOTHING_REPORTED, Joined(chunks), probes);
    if !ChunksReturn(START, chunks, probes) {
      StuckAnywhereIsLate(START, chunks, probes);
    }
  }

  /**
   How the stream is cut into writes does not matter exactly when it is harmless: then, and only then,
   every cut gives the report of the whole stream. Else the cut into single bytes never returns.
   */
  lemma AnyChunking(bytes: seq<Byte>, probes: Probes)
    ensures Harmless(bytes, probes) <==>
              forall chunks: seq<seq<Byte>> ::
                Joined(chunks) == bytes ==> Observe(chunks, probes) == Some(Run(START, bytes, probes).report)
  {
    if Harmless(bytes, probes) {
      forall chunks: seq<seq<Byte>> | Joined(chunks) == bytes
        ensures Observe(chunks, probes) == Some(Run(START, bytes, probes).report)
      {
        HarmlessIsObserved(chunks, probes);
      }
    } else {
      RunLate(Closed, NOTHING_REPORTED, bytes, probes);
      LateIsStuckSingly(START, bytes, probes);
      assert Observe(Singly(bytes), probes) == None;
    }
  }

  /** Push and pull agree on every byte stream the pull reader accepts, if every write returns. */
  lemma PushAgreesWithPull(chunks: seq<seq<Byte>>, cap: nat, probes: Probes)
    requires Observe(chunks, probes).Some?
    requires forall f <- FramesIn(Joined(chunks), WIRE_LIMIT) :: |f.payload| <= cap
    ensures Reports(Observe(chunks, probes).value, TextMessages(FramesIn(Joined(chunks), cap), Nothing), probes)
  {
    CapOnlyRefusesLarge(Joined(chunks), cap);
    ObservedReportsStream(chunks, probes);
  }

  lemma EncodedFrameBegins(frame: Frame, masking: Masking, rest: seq<Byte>)
    requires frame.Valid()
    ensures FramesBegun(EncodedFrame(frame, masking.masked, masking.mask) + rest) == [frame] + FramesBegun(rest)
  {
    RoundTrip(frame, masking.masked, masking.mask, rest, WIRE_LIMIT);
  }

  lemma {:induction false} EncodedFramesBegin(frames: seq<Frame>, maskings: seq<Masking>)
    requires |maskings| == |frames| && forall f <- frames :: f.Valid()
    ensures FramesBegun(EncodeAll(frames, maskings)) == frames
    decreases frames
  {
    if frames != [] {
      EncodedFrameBegins(frames[0], maskings[0], EncodeAll(frames[1..], maskings[1..]));
      EncodedFramesBegin(frames[1..], maskings[1..]);
    }
  }

  /**
   The observer of any encoding of a list of frames, in any chunks that return, reports that list's
   messages; and all chunks return if no text of the list goes on after its decoder has returned.
   */
  lemma EncodedFramesAreObserved(frames: seq<Frame>, maskings: seq<Masking>, chunks: seq<seq<Byte>>, probes: Probes)
    requires |maskings| == |frames| && forall f <- frames :: f.Valid()
    requires Joined(chunks) == EncodeAll(frames, maskings)
    ensures !AnyEarly(TextsBegun(frames, Nothing), probes) ==> Observe(chunks, probes).Some?
    ensures Observe(chunks, probes).Some? ==>
              Reports(Observe(chunks, probes).value, TextMessages(frames, Nothing), probes)
  {
    EncodedFramesBegin(frames, maskings);
    if Harmless(Joined(chunks), probes) {
      HarmlessIsObserved(chunks, probes);
    }
    if Observe(chunks, probes).Some? {
      EncodedFramesReadBack(frames, maskings, WIRE_LIMIT);
      ObservedReportsStream(chunks, probes);
    }
  }

  // ---------------------------------------------------------------- a write that never returns

  /** An empty JSON object and a newline. */
  const OBJECT: seq<Byte> := [123, 125, 10]

  const NO_MASK: Mask := [0, 0, 0, 0]

  /** The header of an unmasked final text frame with three bytes of payload. */
  const HEADER: seq<Byte> := [129, 3]

  const BEGUN :=
    State(ReadingPayload(OP_TEXT, true, 3, false, NO_MASK, 0), OpenText([], EMPTY_LIMIT), NOTHING_REPORTED)

  lemma HeaderTaken(p: seq<Byte>, probes: Probes)
    ensures Run(START, HEADER, probes) == BEGUN
    ensures ChunkReturns(START, HEADER + p, probes) <==> ChunkReturns(BEGUN, p, probes)
  {
    var first := State(ReadingHeader([129]), Closed, NOTHING_REPORTED);
    assert [] + [129 as Byte] == [129];
    assert Feed(START, 129, probes) == first;
    var h: seq<Byte> := [129] + [3];
    assert |h| == FrameHeaderLen(h) && ParseFrameHeader(h) == Some(Header(129, 3, false, NO_MASK));
    assert Feed(first, 3, probes) == BEGUN;
    assert HEADER[1..] == [3];
    assert (HEADER + p)[1..] == [3] + p && ([3] + p)[1..] == p;
  }

  /** The decoder has the object when it has seen its closing brace, and asks for at least three bytes at first. */
  predicate DecodesObject(probes: Probes)
  {
    probes.complete([123, 125]) && !probes.complete([123]) && probes.room(0) >= 3
  }

  lemma ObjectDecided(probes: Probes)
    requires DecodesObject(probes)
    ensures Decided([123, 125], probes) && !Decided([], probes)
  {
    var read: seq<Byte> := [123, 125];
    assert read[..2] == read;
  }

  lemma ObjectEncoded(frame: Frame)
    requires frame == Frame(OP_TEXT, true, 0, OBJECT)
    ensures EncodedFrame(frame, false, NO_MASK) == HEADER + OBJECT
  {
    assert FirstByte(frame) == 129 && CodeFor(3) == 3 && ExtendedLen(3) == 0 && SecondByte(3, false) == 3;
    var none := PutBigEndian(3, 0);
    assert none == [];
    assert HeaderStart(frame, false) == [129 as Byte, 3] + none;
    assert FrameFront(frame, false, NO_MASK) == HEADER + [];
  }

  lemma OneTextObserved(frame: Frame, masking: Masking, chunks: seq<seq<Byte>>, probes: Probes)
    requires frame.Valid() && frame.opcode == OP_TEXT && frame.fin
    requires Joined(chunks) == EncodedFrame(frame, masking.masked, masking.mask) && Observe(chunks, probes).Some?
    ensures Reports(Observe(chunks, probes).value, [frame.payload], probes)
  {
    var frames, maskings := [frame], [masking];
    assert frames[1..] == [] && maskings[1..] == [];
    var rest := EncodeAll(frames[1..], maskings[1..]);
    assert rest == [];
    assert EncodeAll(frames, maskings) == EncodedFrame(frame, masking.masked, masking.mask) + rest;
    EncodedFramesAreObserved(frames, maskings, chunks, probes);
    var none := TextMessages(frames[1..], Nothing);
    assert none == [];
    assert TextMessages(frames, Nothing) == [frame.payload] + none == [frame.payload];
  }

  lemma ObjectReturns(probes: Probes)
    requires DecodesObject(probes)
    ensures ChunkReturns(START, HEADER + OBJECT, probes)
  {
    ObjectDecided(probes);
    HeaderTaken(OBJECT, probes);
    assert OBJECT[..3] == OBJECT && OBJECT[3..] == [];
    assert [] + OBJECT == OBJECT;
    assert Accepts(OBJECT, [], probes);
    assert PieceReturns(BEGUN, OBJECT, probes);
  }

  lemma OneChunk(bytes: seq<Byte>, probes: Probes)
    requires ChunkReturns(START, bytes, probes)
    ensures Observe([bytes], probes).Some?
  {
    var chunks := [bytes];
    assert chunks[1..] == [];
    GoesOn(START, bytes, probes);
    assert ChunksReturn(Run(START, bytes, probes), chunks[1..], probes);
  }

  /** In one write the message is reported. */
  lemma ObjectInOneWrite(probes: Probes)
    requires DecodesObject(probes)
    ensures Observe([HEADER + OBJECT], probes).Some?
    ensures Reports(Observe([HEADER + OBJECT], probes).value, [OBJECT], probes)
  {
    var bytes := HEADER + OBJECT;
    ObjectReturns(probes);
    OneChunk(bytes, probes);
    var frame := Frame(OP_TEXT, true, 0, OBJECT);
    ObjectEncoded(frame);
    JoinedCons(bytes, []);
    assert [bytes] + [] == [bytes];
    OneTextObserved(frame, Masking(false, NO_MASK), [bytes], probes);
  }

  /** Cut before the newline, the second write never returns. */
  lemma ObjectCutBeforeNewline(probes: Probes)
    requires DecodesObject(probes)
    ensures Observe([HEADER + [123, 125], [10]], probes) == None
  {
    var first, second: seq<Byte> := [123, 125], [10];
    ObjectDecided(probes);
    HeaderTaken(first, probes);
    var st := PayloadPiece(BEGUN, first, probes.cap);
    RunPayload(BEGUN, first, probes);
    RunConcat(START, HEADER, first, probes);
    assert [] + first == first;
    assert st.message.text == first && st.phase.remaining == 1;
    assert second[..1] == second;
    assert !Accepts(first, second, probes);
    assert !PieceReturns(st, second, probes);
    assert !ChunkReturns(st, second, probes);
    var chunks := [HEADER + first, second];
    assert chunks[1..] == [second];
    GoesOn(START, chunks[0], probes);
    assert !ChunksReturn(Run(START, chunks[0], probes), [second], probes);
  }
}
