/**
 The capture object that watches the upstream-to-client direction: the header array, the frame and
 message fields, and the loops that update them. Its state is that of the machine on bytes.
 */
module WebSocketUsageCapture {
  import opened Prelude
  import opened WebSocketFrames
  import opened UsageTypes
  import opened WebSocketObserver
  import opened ObserverChunks

  /** Header bytes taken in one go return one by one. */
  lemma {:induction false} HeaderReturns(st: State, p: seq<Byte>, n: nat, probes: Probes)
    requires Going(st) && n <= |p|
    requires forall k :: 0 <= k < n ==> Run(st, p[..k], probes).phase.ReadingHeader?
    ensures Going(Run(st, p[..n], probes))
    ensures ChunkReturns(st, p, probes) <==> ChunkReturns(Run(st, p[..n], probes), p[n..], probes)
    decreases n
  {
    GoesOn(st, p[..n], probes);
    if n == 0 {
      assert p[n..] == p && p[..n] == [];
    } else {
      var m := n - 1;
      HeaderReturns(st, p, m, probes);
      var next := Run(st, p[..m], probes);
      assert next.phase.ReadingHeader?;
      assert p[..n] == p[..m] + [p[m]] && p[m..][0] == p[m] && p[m..][1..] == p[n..];
      RunConcat(st, p[..m], [p[m]], probes);
    }
  }

  lemma PayloadReturns(st: State, p: seq<Byte>, n: nat, probes: Probes)
    requires Going(st) && st.phase.ReadingPayload? && p != []
    requires n == if |p| <= st.phase.remaining then |p| else st.phase.remaining
    ensures Going(Run(st, p[..n], probes))
    ensures ChunkReturns(st, p, probes) <==>
              PieceReturns(st, p[..n], probes) && ChunkReturns(Run(st, p[..n], probes), p[n..], probes)
  {
    GoesOn(st, p[..n], probes);
  }

  /** From here with these bytes and from there with those: the same state, and both return or neither. */
  predicate SameEnd(st: State, p: seq<Byte>, next: State, q: seq<Byte>, probes: Probes)
  {
    && Going(st) && Going(next) && Run(next, q, probes) == Run(st, p, probes)
    && (ChunkReturns(st, p, probes) <==> ChunkReturns(next, q, probes))
  }

  lemma SameEndStep(start: State, p: seq<Byte>, st: State, q: seq<Byte>, next: State, taken: nat, probes: Probes)
    requires SameEnd(start, p, st, q, probes) && taken <= |q|
    requires Going(next) && next == Run(st, q[..taken], probes)
    requires ChunkReturns(st, q, probes) <==> ChunkReturns(next, q[taken..], probes)
    ensures SameEnd(start, p, next, q[taken..], probes)
  {
    assert q == q[..taken] + q[taken..];
    RunConcat(st, q[..taken], q[taken..], probes);
  }

  class UsageCapture {
    const probes: Probes
    const header: array<Byte>
    var headerLen: nat
    var headerNeed: nat

    var frameActive: bool
    var frameFin: bool
    var frameOpcode: Opcode
    var framePayloadRemaining: nat
    var frameMask: Mask
    var frameMaskOffset: nat
    var frameMasked: bool

    var messageOpcode: Opcode
    var messageText: Option<seq<Byte>>
    var messageLimit: Option<LimitBuffer>
    var calls: seq<Call>
    var usage: TokenUsage
    var found: bool
    var limitFound: bool

    /** Every byte written so far. */
    ghost var seen: seq<Byte>

    constructor (probes: Probes)
      ensures Valid() && fresh(header) && this.probes == probes && seen == []
    {
      this.probes := probes;
      header := new Byte[14](_ => 0);
      headerLen, headerNeed, frameActive, frameFin, frameOpcode := 0, 0, false, false, 0;
      framePayloadRemaining, frameMask, frameMaskOffset, frameMasked := 0, [0, 0, 0, 0], 0, false;
      messageOpcode, messageText, messageLimit := 0, None, None;
      calls, usage, found, limitFound := [], NO_USAGE, false, false;
      seen := [];
    }

    ghost predicate Shape()
      reads this, header
    {
      && header.Length == 14 && headerLen <= 14
      && (if frameActive then headerLen == 0 && headerNeed == 0
          else if headerLen < 2 then headerNeed == 0
          else headerNeed == FrameHeaderLen(header[..headerLen]) && headerLen < headerNeed)
      && MessageShape()
    }

    ghost predicate MessageShape()
      reads this
    {
      && (messageOpcode == 0 || messageOpcode == OP_TEXT || messageOpcode == OP_BINARY)
      && (messageText.Some? <==> messageOpcode == OP_TEXT)
      && (messageLimit.Some? <==> messageOpcode == OP_TEXT)
    }

    function CurrentReport(): Report
      reads this
    {
      Report(calls, usage, found, limitFound)
    }

    ghost function CurrentMessage(): Message
      reads this
    {
      if messageText.Some? && messageLimit.Some? then OpenText(messageText.value, messageLimit.value)
      else if messageOpcode == OP_BINARY then OpenBinary
      else Closed
    }

    ghost function CurrentPhase(): Phase
      requires Shape()
      reads this, header
    {
      if frameActive then
        ReadingPayload(frameOpcode, frameFin, framePayloadRemaining, frameMasked, frameMask, frameMaskOffset)
      else ReadingHeader(header[..headerLen])
    }

    ghost function Abs(): State
      requires Shape()
      reads this, header
    {
      State(CurrentPhase(), CurrentMessage(), CurrentReport())
    }

    ghost predicate Valid()
      reads this, header
    {
      Shape() && Abs() == Run(START, seen, probes) && (frameActive ==> framePayloadRemaining > 0)
    }

    /**
     A chunk of the stream. The call returns unless a piece of text comes after its decoder has returned;
     then the report is the one for the whole stream up to here.
     */
    method Write(p: seq<Byte>) returns (returned: bool)
      requires Valid()
      modifies this, header
      ensures returned <==> ChunkReturns(old(Abs()), p, probes)
      ensures returned ==> Valid() && seen == old(seen) + p && ReportsStream(CurrentReport(), seen, probes)
    {
      returned := TakeAll(p);
      if returned {
        RunExtends(seen, p, probes);
        seen := seen + p;
      }
    }

    /** The loop over the chunk. */
    method TakeAll(p: seq<Byte>) returns (returned: bool)
      requires Ready()
      modifies this, header
      ensures seen == old(seen)
      ensures returned <==> ChunkReturns(old(Abs()), p, probes)
      ensures returned ==> Ready() && Abs() == Run(old(Abs()), p, probes)
    {
      ghost var start := Abs();
      var rest := p;
      while |rest| > 0
        invariant Ready() && seen == old(seen)
        invariant SameEnd(start, p, Abs(), rest, probes)
        decreases |rest|
      {
        ghost var before := Abs();
        var taken;
        taken, returned := TakeNext(rest);
        if !returned {
          return;
        }
        SameEndStep(start, p, before, rest, Abs(), taken, probes);
        rest := rest[taken..];
      }
      returned := true;
    }

    /** One turn of the loop: header bytes, or payload up to the end of the frame. */
    method TakeNext(p: seq<Byte>) returns (taken: nat, returned: bool)
      requires Ready() && |p| > 0
      modifies this, header
      ensures seen == old(seen) && 0 < taken <= |p|
      ensures returned ==> Ready() && Abs() == Run(old(Abs()), p[..taken], probes)
      ensures returned ==> (ChunkReturns(old(Abs()), p, probes) <==> ChunkReturns(Abs(), p[taken..], probes))
      ensures !returned ==> !ChunkReturns(old(Abs()), p, probes)
    {
      ghost var before := Abs();
      if !frameActive {
        taken := TakeHeader(p);
        HeaderReturns(before, p, taken, probes);
        returned := true;
      } else {
        taken, returned := TakePayload(p);
        PayloadReturns(before, p, taken, probes);
      }
    }

    /** Between two steps of the loop no frame is waiting to be finished. */
    ghost predicate Ready()
      reads this, header
    {
      Shape() && (frameActive ==> framePayloadRemaining > 0)
    }

    method TakeHeader(p: seq<Byte>) returns (consumed: nat)
      requires Ready() && !frameActive && |p| > 0
      modifies this, header
      ensures Ready() && seen == old(seen) && 0 < consumed <= |p|
      ensures Abs() == Run(old(Abs()), p[..consumed], probes)
      ensures forall k :: 0 <= k < consumed ==> Run(old(Abs()), p[..k], probes).phase.ReadingHeader?
    {
      consumed := ConsumeHeader(p);
      if frameActive && framePayloadRemaining == 0 {
        FinishFrame();
      }
    }

    method TakePayload(p: seq<Byte>) returns (chunkSize: nat, returned: bool)
      requires Ready() && frameActive && |p| > 0
      modifies this
      ensures seen == old(seen)
      ensures chunkSize == if |p| <= old(framePayloadRemaining) then |p| else old(framePayloadRemaining)
      ensures returned <==> PieceReturns(old(Abs()), p[..chunkSize], probes)
      ensures returned ==> Ready() && Abs() == Run(old(Abs()), p[..chunkSize], probes)
    {
      chunkSize := |p|;
      if chunkSize > framePayloadRemaining {
        chunkSize := framePayloadRemaining;
      }
      RunPayload(Abs(), p[..chunkSize], probes);
      returned := AdvancePayload(p[..chunkSize]);
      if !returned {
        return;
      }
      if framePayloadRemaining == 0 {
        FinishFrame();
      }
    }

    method AdvancePayload(chunk: seq<Byte>) returns (returned: bool)
      requires Shape() && frameActive && 0 < |chunk| <= framePayloadRemaining
      modifies this`frameMaskOffset, this`messageText, this`messageLimit, this`framePayloadRemaining
      ensures returned <==> PieceReturns(old(Abs()), chunk, probes)
      ensures returned ==> Shape() && Abs() == PayloadPiece(old(Abs()), chunk, probes.cap)
    {
      returned := ConsumePayload(chunk);
      if returned {
        framePayloadRemaining := framePayloadRemaining - |chunk|;
      }
    }

    /** Collects header bytes until a frame starts or the input is used up. */
    method ConsumeHeader(p: seq<Byte>) returns (consumed: nat)
      requires Shape() && !frameActive && |p| > 0
      modifies this, header
      ensures Shape() && seen == old(seen)
      ensures 0 < consumed <= |p| && (!frameActive ==> consumed == |p|)
      ensures Settle(Abs(), probes) == Run(old(Abs()), p[..consumed], probes)
      ensures forall k :: 0 <= k < consumed ==> Run(old(Abs()), p[..k], probes).phase.ReadingHeader?
    {
      consumed := 0;
      while consumed < |p| && !frameActive
        invariant 0 <= consumed <= |p|
        invariant Shape() && seen == old(seen)
        invariant consumed == 0 ==> !frameActive
        invariant Settle(Abs(), probes) == Run(old(Abs()), p[..consumed], probes)
        invariant forall k :: 0 <= k < consumed ==> Run(old(Abs()), p[..k], probes).phase.ReadingHeader?
      {
        ghost var before := Abs();
        var b := p[consumed];
        HeaderOneByte(b);
        consumed := consumed + 1;
        assert p[..consumed] == p[..consumed - 1] + [b];
        RunConcat(old(Abs()), p[..consumed - 1], [b], probes);
        assert Run(before, [b], probes) == Feed(before, b, probes);
      }
    }

    method HeaderOneByte(b: Byte)
      requires Shape() && !frameActive
      modifies this, header
      ensures Shape() && seen == old(seen) && Abs() == HeaderByte(old(Abs()), b)
    {
      ghost var got := header[..headerLen];
      header[headerLen] := b;
      headerLen := headerLen + 1;
      assert header[..headerLen] == got + [b];
      if headerLen == 2 {
        headerNeed := FrameHeaderLen(header[..2]);
      }
      if |got| >= 2 {
        HeaderOfPrefix(got, got + [b]);
      }
      if headerNeed > 0 && headerLen == headerNeed {
        BeginFrame();
      }
    }

    /** Parses the collected header and opens the message a data frame starts. */
    method BeginFrame()
      requires header.Length == 14 && !frameActive && 2 <= headerLen == headerNeed <= 14
      requires headerNeed == FrameHeaderLen(header[..headerLen])
      requires MessageShape()
      modifies this
      ensures Shape() && seen == old(seen) && frameActive
      ensures Abs() == Begin(ParseFrameHeader(old(header[..headerLen])).value,
                             old(CurrentMessage()), old(CurrentReport()))
    {
      var parsed := ParseFrameHeader(header[..headerNeed]);
      StartFrame(parsed.value);
    }

    method StartFrame(parsed: Header)
      requires header.Length == 14 && MessageShape()
      modifies this`headerLen, this`headerNeed, this`frameMask
      modifies this`frameActive, this`frameFin, this`frameOpcode
      modifies this`framePayloadRemaining, this`frameMasked, this`frameMaskOffset
      modifies this`messageOpcode, this`messageText, this`messageLimit
      ensures Shape() && CurrentPhase() == Begin(parsed, old(CurrentMessage()), CurrentReport()).phase
      ensures CurrentMessage() == BeginMessage(OpcodeOf(parsed.first), old(CurrentMessage()))
    {
      frameActive := true;
      frameFin := FinOf(parsed.first);
      frameOpcode := OpcodeOf(parsed.first);
      framePayloadRemaining := parsed.payloadLen;
      frameMasked := parsed.masked;
      frameMaskOffset := 0;
      frameMask := parsed.mask;
      headerLen := 0;
      headerNeed := 0;
      OpenMessage();
    }

    method OpenMessage()
      requires MessageShape()
      modifies this`messageOpcode, this`messageText, this`messageLimit
      ensures MessageShape() && CurrentMessage() == BeginMessage(frameOpcode, old(CurrentMessage()))
    {
      if frameOpcode == OP_TEXT {
        ResetUnexpectedMessage();
        messageOpcode := OP_TEXT;
        messageText := Some([]);
        messageLimit := Some(EMPTY_LIMIT);
      } else if frameOpcode == OP_BINARY {
        ResetUnexpectedMessage();
        messageOpcode := OP_BINARY;
      }
    }

    /** Unmasks a copy of the piece and hands it to the open text message. */
    method ConsumePayload(payload: seq<Byte>) returns (returned: bool)
      requires Shape() && frameActive && 0 < |payload| <= framePayloadRemaining
      modifies this`frameMaskOffset, this`messageText, this`messageLimit
      ensures returned <==> PieceReturns(old(Abs()), payload, probes)
      ensures returned ==>
                && Shape() && frameMaskOffset == old(frameMaskOffset) + (if frameMasked then |payload| else 0)
                && CurrentMessage() == PayloadPiece(old(Abs()), payload, probes.cap).message
    {
      var decoded := new Byte[|payload|];
      forall i | 0 <= i < |payload| {
        decoded[i] := payload[i];
      }
      assert decoded[..] == payload;
      if frameMasked {
        ApplyMaskFromOffset(decoded, frameMask, frameMaskOffset);
        frameMaskOffset := frameMaskOffset + |payload|;
      }
      returned := true;
      if frameOpcode == OP_TEXT {
        returned := WriteTextPayload(decoded[..]);
      } else if frameOpcode == OP_CONTINUATION {
        if messageOpcode == OP_TEXT {
          returned := WriteTextPayload(decoded[..]);
        }
      }
    }

    /** The write to the decoder's pipe may never return. */
    method WriteTextPayload(payload: seq<Byte>) returns (returned: bool)
      requires Shape()
      modifies this`messageText, this`messageLimit
      ensures returned <==> (old(messageText).Some? ==> Accepts(old(messageText).value, payload, probes))
      ensures returned ==>
                Shape() && CurrentMessage() == AddPayload(OP_TEXT, old(CurrentMessage()), payload, probes.cap)
    {
      if messageText == None {
        return true;
      }
      if !Accepts(messageText.value, payload, probes) {
        return false;
      }
      messageText := Some(messageText.value + payload);
      if messageLimit.Some? {
        messageLimit := Some(LimitWrite(messageLimit.value, payload, probes.cap));
      }
      returned := true;
    }

    method FinishFrame()
      requires Shape() && frameActive
      modifies this`frameActive, this`frameFin, this`frameOpcode
      modifies this`framePayloadRemaining, this`frameMasked, this`frameMaskOffset
      modifies this`messageOpcode, this`messageText, this`messageLimit
      modifies this`calls, this`usage, this`found, this`limitFound
      ensures Shape() && CurrentPhase() == ReadingHeader([])
      ensures var st := Finish(old(frameOpcode), old(frameFin), old(CurrentMessage()), old(CurrentReport()), probes);
              CurrentMessage() == st.message && CurrentReport() == st.report
    {
      var opcode, fin := frameOpcode, frameFin;
      ClearFrame();
      EndMessage(opcode, fin);
    }

    method ClearFrame()
      requires Shape() && frameActive
      modifies this`frameActive, this`frameFin, this`frameOpcode
      modifies this`framePayloadRemaining, this`frameMasked, this`frameMaskOffset
      ensures Shape() && !frameActive && CurrentPhase() == ReadingHeader([])
    {
      frameActive := false;
      frameFin := false;
      frameOpcode := 0;
      framePayloadRemaining := 0;
      frameMaskOffset := 0;
      frameMasked := false;
      assert header[..headerLen] == [];
    }

    /** What the end of a frame with this opcode and FIN bit does to the open message. */
    method EndMessage(opcode: Opcode, fin: bool)
      requires Shape() && !frameActive
      modifies this`messageOpcode, this`messageText, this`messageLimit
      modifies this`calls, this`usage, this`found, this`limitFound
      ensures Shape()
      ensures var st := Finish(opcode, fin, old(CurrentMessage()), old(CurrentReport()), probes);
              CurrentMessage() == st.message && CurrentReport() == st.report
    {
      if opcode == OP_TEXT {
        if fin {
          FinishTextMessage();
        }
      } else if opcode == OP_BINARY {
        if fin {
          ResetMessage();
        }
      } else if opcode == OP_CONTINUATION {
        if !fin {
          return;
        }
        if messageOpcode == OP_TEXT {
          FinishTextMessage();
          return;
        }
        if messageOpcode == OP_BINARY {
          ResetMessage();
        }
      }
    }

    method FinishTextMessage()
      requires Shape() && !frameActive
      modifies this`messageOpcode, this`messageText, this`messageLimit
      modifies this`calls, this`usage, this`found, this`limitFound
      ensures Shape() && CurrentMessage() == Closed
      ensures CurrentReport() == match old(CurrentMessage())
                                 case OpenText(text, limit) => FinishText(text, limit, old(CurrentReport()), probes)
                                 case _ => old(CurrentReport())
    {
      if messageText == None && messageLimit == None {
        ResetMessage();
        return;
      }
      if messageLimit.Some? && !messageLimit.value.tooLarge && probes.limit(messageLimit.value.bytes) {
        MarkLimitFound();
      }
      var result := probes.usage(messageText.value);
      ResetMessage();
      match result
      case None =>
      case Some(u) =>
        usage := u;
        found := true;
        calls := calls + [OnUsage(u)];
    }

    method MarkLimitFound()
      modifies this`limitFound, this`calls
      ensures CurrentReport() == MarkLimit(old(CurrentReport()))
    {
      if limitFound {
        return;
      }
      limitFound := true;
      calls := calls + [OnLimit];
    }

    method ResetMessage()
      modifies this`messageOpcode, this`messageText, this`messageLimit
      ensures CurrentMessage() == Closed && messageOpcode == 0 && messageText == None && messageLimit == None
    {
      messageText := None;
      messageLimit := None;
      messageOpcode := 0;
    }

    method ResetUnexpectedMessage()
      requires messageText.Some? ==> messageOpcode != 0
      requires messageLimit.Some? ==> messageOpcode != 0
      modifies this`messageOpcode, this`messageText, this`messageLimit
      ensures CurrentMessage() == Closed && messageOpcode == 0 && messageText == None && messageLimit == None
    {
      if messageOpcode != 0 {
        ResetMessage();
      }
    }
  }
}
