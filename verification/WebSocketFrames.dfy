/**
 Reading and writing single WebSocket frames (RFC 6455, sections 5.2 and 5.3):
 the header with its three length forms, masking, the pull decoder and the encoder.
 */
module WebSocketFrames {
  import opened Prelude

  /** An octet. Masks with constants are written as arithmetic: `& 0x0F` is `% 16`, `& 0x80` is `>= 128`. */
  type Byte = x: int | 0 <= x < 256

  type Opcode = x: int | 0 <= x < 16

  /** The three reserved bits, in place: a multiple of 16 below 128. */
  type Reserved = x: int | 0 <= x < 128 && x % 16 == 0

  type Mask = m: seq<Byte> | |m| == 4 witness [0, 0, 0, 0]

  const OP_CONTINUATION: Opcode := 0x0
  const OP_TEXT: Opcode := 0x1
  const OP_BINARY: Opcode := 0x2
  const OP_CLOSE: Opcode := 0x8

  /** Payload lengths are unsigned 64-bit on the wire. */
  const WIRE_LIMIT: nat := 0x1_0000_0000_0000_0000

  datatype Frame = Frame(opcode: Opcode, fin: bool, rsv: Reserved, payload: seq<Byte>) {
    predicate Valid() {
      |payload| < WIRE_LIMIT
    }
  }

  function OpcodeOf(first: Byte): Opcode
  {
    first % 16
  }

  predicate FinOf(first: Byte)
  {
    first >= 128
  }

  function ReservedOf(first: Byte): Reserved
  {
    first / 16 % 8 * 16
  }

  datatype Header = Header(first: Byte, payloadLen: nat, masked: bool, mask: Mask)

  datatype ReadError = HeaderCut | ExtendedHeaderCut | PayloadTooLarge | PayloadCut

  // ---------------------------------------------------------------- masking

  function Pow2(k: nat): (r: nat)
    ensures r > 0
  {
    if k == 0 then 1 else 2 * Pow2(k - 1)
  }

  /** Exclusive or of the lowest bits of two numbers. */
  function XorBits(a: nat, b: nat, bits: nat): (r: nat)
    ensures r < Pow2(bits)
  {
    if bits == 0 then 0
    else 2 * XorBits(a / 2, b / 2, bits - 1) + if a % 2 == b % 2 then 0 else 1
  }

  lemma {:induction false} XorBitsTwice(a: nat, b: nat, bits: nat)
    requires a < Pow2(bits)
    ensures XorBits(XorBits(a, b, bits), b, bits) == a
  {
    if bits > 0 {
      var half := XorBits(a / 2, b / 2, bits - 1);
      var x := XorBits(a, b, bits);
      assert x / 2 == half && x % 2 == if a % 2 == b % 2 then 0 else 1;
      XorBitsTwice(a / 2, b / 2, bits - 1);
    }
  }

  lemma Pow2Of8()
    ensures Pow2(8) == 256
  {
    assert Pow2(4) == 2 * (2 * (2 * (2 * Pow2(0))));
  }

  function Xor(a: Byte, b: Byte): Byte
  {
    Pow2Of8();
    XorBits(a, b, 8)
  }

  lemma XorTwice(a: Byte, b: Byte)
    ensures Xor(Xor(a, b), b) == a
  {
    Pow2Of8();
    XorBitsTwice(a, b, 8);
  }

  /** Bit k of a number, bit 0 being the lowest. */
  predicate Bit(n: nat, k: nat)
  {
    if k == 0 then n % 2 == 1 else Bit(n / 2, k - 1)
  }

  /** The octets differ in exactly the bits that are set in the mask octet. */
  ghost predicate Flips(before: Byte, after: Byte, mask: Byte)
  {
    forall k: nat :: k < 8 ==> (Bit(after, k) <==> Bit(before, k) != Bit(mask, k))
  }

  lemma {:induction false} XorBit(a: nat, b: nat, bits: nat, k: nat)
    requires k < bits
    ensures Bit(XorBits(a, b, bits), k) <==> Bit(a, k) != Bit(b, k)
    decreases bits
  {
    var x := XorBits(a, b, bits);
    assert x / 2 == XorBits(a / 2, b / 2, bits - 1) && x % 2 == if a % 2 == b % 2 then 0 else 1;
    if k > 0 {
      XorBit(a / 2, b / 2, bits - 1, k - 1);
    }
  }

  lemma XorFlips(a: Byte, b: Byte)
    ensures Flips(a, Xor(a, b), b)
  {
    forall k: nat | k < 8
      ensures Bit(Xor(a, b), k) <==> Bit(a, k) != Bit(b, k)
    {
      XorBit(a, b, 8, k);
    }
  }

  function Masked(payload: seq<Byte>, mask: Mask, offset: nat): (r: seq<Byte>)
    ensures |r| == |payload|
  {
    seq(|payload|, i requires 0 <= i < |payload| => Xor(payload[i], mask[(offset + i) % 4]))
  }

  lemma MaskTwice(payload: seq<Byte>, mask: Mask, offset: nat)
    ensures Masked(Masked(payload, mask, offset), mask, offset) == payload
  {
    var once := Masked(payload, mask, offset);
    forall i | 0 <= i < |payload|
      ensures Masked(once, mask, offset)[i] == payload[i]
    {
      XorTwice(payload[i], mask[(offset + i) % 4]);
    }
  }

  /** Unmasking in pieces with a running offset unmasks the whole. */
  lemma MaskSplit(a: seq<Byte>, b: seq<Byte>, mask: Mask, offset: nat)
    ensures Masked(a + b, mask, offset) == Masked(a, mask, offset) + Masked(b, mask, offset + |a|)
  {
    forall i | 0 <= i < |a| + |b|
      ensures Masked(a + b, mask, offset)[i] == (Masked(a, mask, offset) + Masked(b, mask, offset + |a|))[i]
    {
      if i >= |a| {
        assert (a + b)[i] == b[i - |a|];
        assert offset + i == (offset + |a|) + (i - |a|);
      }
    }
  }

  /** The mask is applied octet by octet, its four octets in turn from the offset on. */
  ghost predicate MaskedFrom(before: seq<Byte>, after: seq<Byte>, mask: Mask, offset: nat)
  {
    |after| == |before| && forall i :: 0 <= i < |before| ==> Flips(before[i], after[i], mask[(offset + i) % 4])
  }

  lemma MaskedFlips(payload: seq<Byte>, mask: Mask, offset: nat)
    ensures MaskedFrom(payload, Masked(payload, mask, offset), mask, offset)
  {
    forall i | 0 <= i < |payload|
      ensures Flips(payload[i], Masked(payload, mask, offset)[i], mask[(offset + i) % 4])
    {
      XorFlips(payload[i], mask[(offset + i) % 4]);
    }
  }

  /** The in-place loop over the payload slice. */
  method ApplyMaskFromOffset(payload: array<Byte>, mask: Mask, offset: nat)
    modifies payload
    ensures payload[..] == Masked(old(payload[..]), mask, offset)
    ensures MaskedFrom(old(payload[..]), payload[..], mask, offset)
  {
    ghost var was := payload[..];
    for i := 0 to payload.Length
      invariant payload[..i] == Masked(was, mask, offset)[..i]
      invariant payload[i..] == was[i..]
    {
      assert payload[i] == was[i];
      payload[i] := Xor(payload[i], mask[(offset + i) % 4]);
      assert payload[..i + 1] == payload[..i] + [payload[i]];
    }
    assert payload[..] == payload[..payload.Length];
    MaskedFlips(was, mask, offset);
  }

  // ---------------------------------------------------------------- big-endian lengths

  function BigEndian(bytes: seq<Byte>): nat
  {
    if bytes == [] then 0 else BigEndian(bytes[..|bytes| - 1]) * 256 + bytes[|bytes| - 1]
  }

  function PutBigEndian(n: nat, width: nat): (r: seq<Byte>)
    ensures |r| == width
  {
    if width == 0 then [] else PutBigEndian(n / 256, width - 1) + [n % 256]
  }

  function Pow256(k: nat): (r: nat)
    ensures r > 0
  {
    if k == 0 then 1 else 256 * Pow256(k - 1)
  }

  lemma {:induction false} BigEndianInverse(n: nat, width: nat)
    requires n < Pow256(width)
    ensures BigEndian(PutBigEndian(n, width)) == n
  {
    if width > 0 {
      BigEndianInverse(n / 256, width - 1);
      var bytes := PutBigEndian(n, width);
      assert bytes[..width - 1] == PutBigEndian(n / 256, width - 1);
    }
  }

  lemma {:induction false} BigEndianBound(bytes: seq<Byte>)
    ensures BigEndian(bytes) < Pow256(|bytes|)
  {
    if bytes != [] {
      BigEndianBound(bytes[..|bytes| - 1]);
    }
  }

  lemma Pow256Values()
    ensures Pow256(2) == 0x1_0000
    ensures Pow256(8) == WIRE_LIMIT
  {
    assert Pow256(2) == 256 * (256 * Pow256(0));
    assert Pow256(4) == 256 * (256 * Pow256(2));
    assert Pow256(6) == 256 * (256 * Pow256(4));
    assert Pow256(8) == 256 * (256 * Pow256(6));
  }

  // ---------------------------------------------------------------- headers

  function LengthCode(second: Byte): (r: nat)
    ensures r < 128
  {
    second % 128
  }

  function ExtendedLen(code: nat): nat
  {
    if code == 126 then 2 else if code == 127 then 8 else 0
  }

  predicate MaskBit(second: Byte)
  {
    second >= 128
  }

  function FrameHeaderLen(header: seq<Byte>): (need: nat)
    ensures 2 <= need <= 14
  {
    if |header| < 2 then 2
    else 2 + ExtendedLen(LengthCode(header[1])) + if MaskBit(header[1]) then 4 else 0
  }

  function ParseFrameHeader(header: seq<Byte>): Option<Header>
  {
    if |header| < FrameHeaderLen(header) then None
    else
      var code := LengthCode(header[1]);
      var extended := ExtendedLen(code);
      var masked := MaskBit(header[1]);
      Some(Header(
             header[0],
             if extended == 0 then code else BigEndian(header[2..2 + extended]),
             masked,
             if masked then header[2 + extended..6 + extended] else [0, 0, 0, 0]))
  }

  /** A header depends only on its own bytes, not on what follows them. */
  lemma HeaderOfPrefix(header: seq<Byte>, bytes: seq<Byte>)
    requires |header| >= 2 && header <= bytes
    ensures FrameHeaderLen(bytes) == FrameHeaderLen(header)
    ensures |header| >= FrameHeaderLen(header) ==> ParseFrameHeader(bytes) == ParseFrameHeader(header)
  {
    assert header[0] == bytes[0] && header[1] == bytes[1];
    if |header| >= FrameHeaderLen(header) {
      var extended := ExtendedLen(LengthCode(header[1]));
      SliceOfPrefix(header, bytes, 2, 2 + extended);
      if MaskBit(header[1]) {
        SliceOfPrefix(header, bytes, 2 + extended, 6 + extended);
      }
    }
  }

  lemma SliceOfPrefix(a: seq<Byte>, b: seq<Byte>, i: nat, j: nat)
    requires a <= b && i <= j <= |a|
    ensures a[i..j] == b[i..j]
  {
    assert forall k | i <= k < j :: a[k] == b[k];
  }

  // ---------------------------------------------------------------- decoding

  /** The frame that a parsed header and the payload bytes on the wire stand for. */
  function FrameFrom(header: Header, raw: seq<Byte>): Frame
  {
    Frame(OpcodeOf(header.first), FinOf(header.first), ReservedOf(header.first),
          if header.masked then Masked(raw, header.mask, 0) else raw)
  }

  /** The frame at the front of `bytes` and what is left after it. */
  function DecodeFrame(bytes: seq<Byte>, cap: nat): (r: Result<(Frame, seq<Byte>), ReadError>)
    ensures r.Ok? ==> |r.value.1| < |bytes|
  {
    if |bytes| < 2 then Err(HeaderCut)
    else
      var need := FrameHeaderLen(bytes);
      if |bytes| < need then Err(ExtendedHeaderCut)
      else DecodeBody(CompleteHeader(bytes), bytes[need..], cap)
  }

  function CompleteHeader(bytes: seq<Byte>): Header
    requires |bytes| >= 2 && |bytes| >= FrameHeaderLen(bytes)
  {
    HeaderOfPrefix(bytes[..FrameHeaderLen(bytes)], bytes);
    ParseFrameHeader(bytes[..FrameHeaderLen(bytes)]).value
  }

  /** What follows a header: the payload it announces, then the rest of the stream. */
  function DecodeBody(header: Header, body: seq<Byte>, cap: nat): (r: Result<(Frame, seq<Byte>), ReadError>)
    ensures r.Ok? ==> |r.value.1| <= |body|
  {
    if header.payloadLen > cap then Err(PayloadTooLarge)
    else if |body| < header.payloadLen then Err(PayloadCut)
    else Ok((FrameFrom(header, body[..header.payloadLen]), body[header.payloadLen..]))
  }

  lemma DecodeParts(front: seq<Byte>, raw: seq<Byte>, tail: seq<Byte>, cap: nat)
    requires |front| >= 2 && |front| == FrameHeaderLen(front)
    requires |raw| == CompleteHeader(front).payloadLen <= cap
    ensures DecodeFrame(front + (raw + tail), cap) == Ok((FrameFrom(CompleteHeader(front), raw), tail))
  {
    var bytes := front + (raw + tail);
    HeaderOfPrefix(front, bytes);
    assert bytes[..|front|] == front == front[..|front|];
    assert bytes[|front|..] == raw + tail;
    assert (raw + tail)[..|raw|] == raw && (raw + tail)[|raw|..] == tail;
  }

  /** A stream that holds a complete header is that header and what follows it. */
  lemma SplitHeader(bytes: seq<Byte>) returns (front: seq<Byte>, body: seq<Byte>)
    requires |bytes| >= 2 && |bytes| >= FrameHeaderLen(bytes)
    ensures bytes == front + body && |front| >= 2
    ensures |front| == FrameHeaderLen(front) == FrameHeaderLen(bytes)
    ensures CompleteHeader(front) == CompleteHeader(bytes)
    ensures forall cap: nat :: DecodeFrame(bytes, cap) == DecodeBody(CompleteHeader(front), body, cap)
  {
    front, body := bytes[..FrameHeaderLen(bytes)], bytes[FrameHeaderLen(bytes)..];
    HeaderOfPrefix(front, bytes);
    assert front[..|front|] == front;
  }

  /** A stream with a complete frame is its header, its raw payload and what follows. */
  lemma SplitFrame(bytes: seq<Byte>, cap: nat) returns (front: seq<Byte>, raw: seq<Byte>, rest: seq<Byte>)
    requires DecodeFrame(bytes, cap).Ok?
    ensures bytes == front + (raw + rest) && |front| >= 2 && |front| == FrameHeaderLen(front)
    ensures |raw| == CompleteHeader(front).payloadLen
    ensures DecodeFrame(bytes, cap) == Ok((FrameFrom(CompleteHeader(front), raw), rest))
  {
    var body;
    front, body := SplitHeader(bytes);
    var n := CompleteHeader(front).payloadLen;
    raw, rest := body[..n], body[n..];
    assert raw + rest == body;
  }

  /** A buffered reader: the bytes the peer has still to deliver before end of stream. */
  class Reader {
    var rest: seq<Byte>

    constructor (bytes: seq<Byte>)
      ensures rest == bytes
    {
      rest := bytes;
    }

    /** Fills exactly n bytes, or consumes what there is and reports the cut. */
    method ReadFull(n: nat) returns (got: Option<seq<Byte>>)
      modifies this
      ensures n <= |old(rest)| ==> got == Some(old(rest)[..n]) && rest == old(rest)[n..]
      ensures n > |old(rest)| ==> got == None && rest == []
    {
      if n <= |rest| {
        got := Some(rest[..n]);
        rest := rest[n..];
      } else {
        got := None;
        rest := [];
      }
    }
  }

  method ReadHeader(r: Reader) returns (res: Result<Header, ReadError>)
    modifies r
    ensures |old(r.rest)| < 2 ==> res == Err(HeaderCut)
    ensures 2 <= |old(r.rest)| < FrameHeaderLen(old(r.rest)) ==> res == Err(ExtendedHeaderCut)
    ensures |old(r.rest)| >= 2 && |old(r.rest)| >= FrameHeaderLen(old(r.rest)) ==>
              res == Ok(CompleteHeader(old(r.rest))) && r.rest == old(r.rest)[FrameHeaderLen(old(r.rest))..]
  {
    ghost var bytes := r.rest;
    var start := r.ReadFull(2);
    if start == None {
      return Err(HeaderCut);
    }
    HeaderOfPrefix(start.value, bytes);
    var need := FrameHeaderLen(start.value);
    var extension := r.ReadFull(need - 2);
    if extension == None {
      return Err(ExtendedHeaderCut);
    }
    var raw := start.value + extension.value;
    assert raw == bytes[..need];
    HeaderOfPrefix(raw, bytes);
    res := Ok(ParseFrameHeader(raw).value);
  }

  method ReadFrame(r: Reader, cap: nat) returns (res: Result<Frame, ReadError>)
    modifies r
    ensures match DecodeFrame(old(r.rest), cap)
            case Ok((frame, rest)) => res == Ok(frame) && r.rest == rest
            case Err(e) => res == Err(e)
    ensures res.Ok? ==>
              var n := |old(r.rest)| - |r.rest|;
              && 2 <= n && OnWire(old(r.rest)[..n], res.value, old(r.rest)[1] >= 128) && r.rest == old(r.rest)[n..]
  {
    ghost var bytes := r.rest;
    var header := ReadHeader(r);
    if header.Err? {
      return Err(header.error);
    }
    res := ReadBody(r, header.value, cap);
    if res.Ok? {
      DecodedIsOnWire(bytes, cap);
    }
  }

  method ReadBody(r: Reader, header: Header, cap: nat) returns (res: Result<Frame, ReadError>)
    modifies r
    ensures match DecodeBody(header, old(r.rest), cap)
            case Ok((frame, rest)) => res == Ok(frame) && r.rest == rest
            case Err(e) => res == Err(e)
    ensures res.Ok? ==>
              && header.payloadLen <= |old(r.rest)|
              && var raw := old(r.rest)[..header.payloadLen];
                 if header.masked then MaskedFrom(raw, res.value.payload, header.mask, 0) else res.value.payload == raw
  {
    if header.payloadLen > cap {
      return Err(PayloadTooLarge);
    }
    var body := r.ReadFull(header.payloadLen);
    if body == None {
      return Err(PayloadCut);
    }
    var payload := new Byte[header.payloadLen];
    forall i | 0 <= i < header.payloadLen {
      payload[i] := body.value[i];
    }
    assert payload[..] == body.value;
    if header.masked {
      ApplyMaskFromOffset(payload, header.mask, 0);
    }
    res := Ok(Frame(OpcodeOf(header.first), FinOf(header.first), ReservedOf(header.first), payload[..]));
  }

  // ---------------------------------------------------------------- encoding

  function FirstByte(frame: Frame): Byte
  {
    frame.opcode + frame.rsv + if frame.fin then 0x80 else 0
  }

  function SecondByte(code: nat, masked: bool): Byte
    requires code < 128
  {
    (if masked then 0x80 else 0) + code
  }

  /** The shortest of the three length forms, as its seven-bit code. */
  function CodeFor(n: nat): (code: nat)
    ensures code < 128
  {
    if n < 126 then n else if n <= 0xFFFF then 126 else 127
  }

  /** Everything the header holds before the mask. */
  function HeaderStart(frame: Frame, masked: bool): (r: seq<Byte>)
    ensures |r| == 2 + ExtendedLen(CodeFor(|frame.payload|))
  {
    var n := |frame.payload|;
    [FirstByte(frame), SecondByte(CodeFor(n), masked)] + PutBigEndian(n, ExtendedLen(CodeFor(n)))
  }

  /** The payload as it goes on the wire. */
  function WirePayload(frame: Frame, masked: bool, mask: Mask): (raw: seq<Byte>)
    ensures |raw| == |frame.payload|
  {
    if masked then Masked(frame.payload, mask, 0) else frame.payload
  }

  function FrameFront(frame: Frame, masked: bool, mask: Mask): seq<Byte>
  {
    HeaderStart(frame, masked) + if masked then mask else []
  }

  function EncodedFrame(frame: Frame, masked: bool, mask: Mask): seq<Byte>
  {
    FrameFront(frame, masked, mask) + WirePayload(frame, masked, mask)
  }

  /** The part of the frame buffer written before the mask is drawn. */
  method BuildHeader(frame: Frame, masked: bool) returns (out: seq<Byte>)
    ensures out == HeaderStart(frame, masked)
  {
    var first: Byte := frame.opcode + frame.rsv;
    if frame.fin {
      first := first + 0x80;
    }
    out := [first];
    var second: Byte := 0;
    if masked {
      second := 0x80;
    }
    var n := |frame.payload|;
    if n < 126 {
      out := out + [second + n];
      assert PutBigEndian(n, 0) == [];
    } else if n <= 0xFFFF {
      out := out + [second + 126];
      out := out + PutBigEndian(n, 2);
    } else {
      out := out + [second + 127];
      out := out + PutBigEndian(n, 8);
    }
  }

  method BuildFrame(frame: Frame, masked: bool, mask: Mask) returns (out: seq<Byte>)
    ensures out == EncodedFrame(frame, masked, mask)
    ensures frame.Valid() ==>
              && OnWire(out, frame, masked)
              && (masked ==> var n := |out| - |frame.payload|; out[n - 4..n] == mask)
  {
    if frame.Valid() {
      EncodedIsOnWire(frame, masked, mask);
    }
    out := BuildHeader(frame, masked);
    if !masked {
      assert out + [] == out;
      out := out + frame.payload;
      return;
    }
    out := out + mask;
    var maskedPayload := new Byte[|frame.payload|];
    forall i | 0 <= i < |frame.payload| {
      maskedPayload[i] := frame.payload[i];
    }
    assert maskedPayload[..] == frame.payload;
    ApplyMaskFromOffset(maskedPayload, mask, 0);
    out := out + maskedPayload[..];
  }

  // ---------------------------------------------------------------- the two are inverse

  lemma FirstByteFields(frame: Frame)
    ensures OpcodeOf(FirstByte(frame)) == frame.opcode
    ensures ReservedOf(FirstByte(frame)) == frame.rsv
    ensures FinOf(FirstByte(frame)) <==> frame.fin
  {
  }

  lemma SecondByteFields(code: nat, masked: bool)
    requires code < 128
    ensures LengthCode(SecondByte(code, masked)) == code
    ensures MaskBit(SecondByte(code, masked)) <==> masked
  {
  }

  lemma EncodedHeader(frame: Frame, masked: bool, mask: Mask)
    requires frame.Valid()
    ensures var front := FrameFront(frame, masked, mask);
            && FrameHeaderLen(front) == |front|
            && CompleteHeader(front)
               == Header(FirstByte(frame), |frame.payload|, masked, if masked then mask else [0, 0, 0, 0])
  {
    var n := |frame.payload|;
    var code := CodeFor(n);
    var extended := ExtendedLen(code);
    var front := FrameFront(frame, masked, mask);
    SecondByteFields(code, masked);
    assert front[..|front|] == front;
    assert front[1] == SecondByte(code, masked);
    assert front[2..2 + extended] == PutBigEndian(n, extended);
    Pow256Values();
    if extended > 0 {
      BigEndianInverse(n, extended);
    }
    if masked {
      assert front[2 + extended..6 + extended] == mask;
    }
  }

  lemma FrameBack(frame: Frame, masked: bool, mask: Mask, n: nat)
    ensures FrameFrom(Header(FirstByte(frame), n, masked, if masked then mask else [0, 0, 0, 0]),
                      WirePayload(frame, masked, mask)) == frame
  {
    FirstByteFields(frame);
    MaskTwice(frame.payload, mask, 0);
  }

  /** Section 5.2 and 5.3: what is written is read back, and nothing after it is touched. */
  lemma RoundTrip(frame: Frame, masked: bool, mask: Mask, tail: seq<Byte>, cap: nat)
    requires frame.Valid() && |frame.payload| <= cap
    ensures DecodeFrame(EncodedFrame(frame, masked, mask) + tail, cap) == Ok((frame, tail))
  {
    EncodedHeader(frame, masked, mask);
    FrameBack(frame, masked, mask, |frame.payload|);
    var front, raw := FrameFront(frame, masked, mask), WirePayload(frame, masked, mask);
    DecodeParts(front, raw, tail, cap);
    assert EncodedFrame(frame, masked, mask) + tail == front + (raw + tail);
  }

  /** No header spends fewer length bytes on a payload length than the encoder does. */
  lemma CodeIsShortest(bytes: seq<Byte>)
    requires |bytes| >= 2 && |bytes| >= FrameHeaderLen(bytes)
    ensures var n := CompleteHeader(bytes).payloadLen;
            n < WIRE_LIMIT && ExtendedLen(CodeFor(n)) <= ExtendedLen(LengthCode(bytes[1]))
  {
    var front := bytes[..FrameHeaderLen(bytes)];
    var extended := ExtendedLen(LengthCode(bytes[1]));
    Pow256Values();
    if extended > 0 {
      BigEndianBound(front[2..2 + extended]);
    }
  }

  /**
   Whatever length form the sender chose, the decoded frame is one the encoder accepts, and the
   encoder never needs more bytes for it than the sender spent: it picks the shortest form.
   */
  lemma EncoderIsShortest(bytes: seq<Byte>, cap: nat, mask: Mask)
    requires DecodeFrame(bytes, cap).Ok?
    ensures var (frame, rest) := DecodeFrame(bytes, cap).value;
            frame.Valid() && |EncodedFrame(frame, MaskBit(bytes[1]), mask)| <= |bytes| - |rest|
  {
    var (frame, rest) := DecodeFrame(bytes, cap).value;
    CodeIsShortest(bytes);
    var n := |frame.payload|;
    assert n == CompleteHeader(bytes).payloadLen;
    assert |bytes| - |rest| == FrameHeaderLen(bytes) + n;
    assert |EncodedFrame(frame, MaskBit(bytes[1]), mask)|
        == 2 + ExtendedLen(CodeFor(n)) + (if MaskBit(bytes[1]) then 4 else 0) + n;
  }

  // ---------------------------------------------------------------- the octets of a frame

  /** Network byte order: the first octet counts most. */
  function Octets2(wire: seq<Byte>): nat
    requires |wire| >= 4
  {
    0x100 * (wire[2] as int) + wire[3]
  }

  function Octets8(wire: seq<Byte>): nat
    requires |wire| >= 10
  {
    0x100_0000_0000_0000 * (wire[2] as int) + 0x1_0000_0000_0000 * (wire[3] as int)
    + 0x100_0000_0000 * (wire[4] as int) + 0x1_0000_0000 * (wire[5] as int)
    + 0x100_0000 * (wire[6] as int) + 0x1_0000 * (wire[7] as int) + 0x100 * (wire[8] as int) + wire[9]
  }

  /**
   Section 5.2 octet by octet: FIN, RSV and opcode, the mask bit and length code, the extended length, the
   masking key, and the payload, of which bit k of octet i is flipped if bit k of key octet i modulo 4 is set.
   */
  ghost predicate OnWire(wire: seq<Byte>, f: Frame, masked: bool)
  {
    |wire| >= 2 &&
    var code := wire[1] % 128;
    var need := 2 + (if code == 126 then 2 else if code == 127 then 8 else 0) + if masked then 4 else 0;
    && (masked <==> wire[1] >= 128)
    && wire[0] == f.opcode + f.rsv + (if f.fin then 128 else 0)
    && |wire| == need + |f.payload|
    && |f.payload| == (if code == 126 then Octets2(wire) else if code == 127 then Octets8(wire) else code)
    && PayloadOnWire(wire, need, f.payload, masked)
  }

  ghost predicate PayloadOnWire(wire: seq<Byte>, need: nat, payload: seq<Byte>, masked: bool)
    requires |wire| == need + |payload| && (masked ==> need >= 4)
  {
    forall i :: 0 <= i < |payload| ==>
      if masked then Flips(wire[need + i], payload[i], wire[need - 4 + i % 4]) else payload[i] == wire[need + i]
  }

  /** Two octets more. */
  lemma BigEndianTwoMore(b: seq<Byte>)
    requires |b| >= 2
    ensures BigEndian(b) == 0x1_0000 * BigEndian(b[..|b| - 2]) + 0x100 * (b[|b| - 2] as int) + b[|b| - 1]
  {
    var c := b[..|b| - 1];
    assert c[..|c| - 1] == b[..|b| - 2] && c[|c| - 1] == b[|b| - 2];
  }

  lemma ExtendedOctets2(wire: seq<Byte>)
    requires |wire| >= 4
    ensures BigEndian(wire[2..4]) == Octets2(wire)
  {
    BigEndianTwoMore(wire[2..4]);
    assert wire[2..4][..0] == [];
  }

  lemma ExtendedOctets8(wire: seq<Byte>)
    requires |wire| >= 10
    ensures BigEndian(wire[2..10]) == Octets8(wire)
  {
    var b := wire[2..10];
    BigEndianTwoMore(b);
    assert b[..6][..4] == b[..4] && b[..4][..2] == b[..2] && b[..2][..0] == [];
    BigEndianTwoMore(b[..6]);
    BigEndianTwoMore(b[..4]);
    BigEndianTwoMore(b[..2]);
  }

  /** The parsed header in terms of its octets. */
  lemma HeaderOctets(front: seq<Byte>)
    requires |front| >= 2 && |front| == FrameHeaderLen(front)
    ensures var code, masked := front[1] % 128, front[1] >= 128;
            var wide := if code == 126 then 2 else if code == 127 then 8 else 0;
            && |front| == 2 + wide + (if masked then 4 else 0)
            && CompleteHeader(front).first == front[0] && CompleteHeader(front).masked == masked
            && CompleteHeader(front).payloadLen
               == (if code == 126 then Octets2(front) else if code == 127 then Octets8(front) else code)
            && (masked ==> CompleteHeader(front).mask == front[|front| - 4..])
  {
    var code := front[1] % 128;
    assert front[..|front|] == front;
    if code == 126 {
      ExtendedOctets2(front);
    } else if code == 127 {
      ExtendedOctets8(front);
    }
  }

  /** Which of the four errors a stream gives, by its first octets and its length; otherwise it is decoded. */
  lemma DecodeFailsExactly(bytes: seq<Byte>, cap: nat)
    ensures var r := DecodeFrame(bytes, cap);
            if |bytes| < 2 then r == Err(HeaderCut)
            else
              var code := bytes[1] % 128;
              var wide := if code == 126 then 2 else if code == 127 then 8 else 0;
              var need := 2 + wide + if bytes[1] >= 128 then 4 else 0;
              if |bytes| < need then r == Err(ExtendedHeaderCut)
              else
                var n := if code == 126 then Octets2(bytes) else if code == 127 then Octets8(bytes) else code;
                if n > cap then r == Err(PayloadTooLarge)
                else if |bytes| < need + n then r == Err(PayloadCut)
                else r.Ok?
  {
    if |bytes| >= 2 && |bytes| >= FrameHeaderLen(bytes) {
      var front, body := SplitHeader(bytes);
      HeaderOctets(front);
      SameOctets(front, bytes);
      assert front[1] == bytes[1];
    }
  }

  lemma FirstOctet(first: Byte)
    ensures first == OpcodeOf(first) + ReservedOf(first) + if FinOf(first) then 128 else 0
  {
  }

  lemma PayloadPart(front: seq<Byte>, raw: seq<Byte>, payload: seq<Byte>, mask: Mask, masked: bool)
    requires masked ==> |front| >= 4 && front[|front| - 4..] == mask
    requires payload == if masked then Masked(raw, mask, 0) else raw
    ensures PayloadOnWire(front + raw, |front|, payload, masked)
  {
    var wire := front + raw;
    MaskedFlips(raw, mask, 0);
    forall i | 0 <= i < |raw|
      ensures wire[|front| + i] == raw[i]
      ensures masked ==> wire[|front| - 4 + i % 4] == mask[i % 4]
    {
      if masked {
        assert front[|front| - 4..][i % 4] == front[|front| - 4 + i % 4];
      }
    }
  }

  lemma SameOctets(front: seq<Byte>, wire: seq<Byte>)
    requires front <= wire
    ensures |front| >= 4 ==> Octets2(wire) == Octets2(front)
    ensures |front| >= 10 ==> Octets8(wire) == Octets8(front)
  {
  }

  /** A header and its raw payload are the octets of the decoded frame. */
  lemma PartsOnWire(front: seq<Byte>, raw: seq<Byte>)
    requires |front| >= 2 && |front| == FrameHeaderLen(front) && |raw| == CompleteHeader(front).payloadLen
    ensures OnWire(front + raw, FrameFrom(CompleteHeader(front), raw), front[1] >= 128)
  {
    var wire, header := front + raw, CompleteHeader(front);
    var f := FrameFrom(header, raw);
    HeaderOctets(front);
    FirstOctet(front[0]);
    SameOctets(front, wire);
    PayloadPart(front, raw, f.payload, header.mask, header.masked);
    assert wire[0] == front[0] && wire[1] == front[1];
  }

  lemma FrontOnWire(bytes: seq<Byte>, front: seq<Byte>, raw: seq<Byte>, rest: seq<Byte>)
    requires bytes == front + (raw + rest)
    requires |front| >= 2 && |front| == FrameHeaderLen(front) && |raw| == CompleteHeader(front).payloadLen
    ensures var n := |bytes| - |rest|;
            && 2 <= n && rest == bytes[n..]
            && OnWire(bytes[..n], FrameFrom(CompleteHeader(front), raw), bytes[1] >= 128)
  {
    var n := |bytes| - |rest|;
    PartsOnWire(front, raw);
    assert bytes[..n] == front + raw && bytes[n..] == rest;
  }

  /** What is decoded is what stands on the wire, and what is left is what follows it. */
  lemma DecodedIsOnWire(bytes: seq<Byte>, cap: nat)
    requires DecodeFrame(bytes, cap).Ok?
    ensures var (f, rest) := DecodeFrame(bytes, cap).value;
            var n := |bytes| - |rest|;
            && 2 <= n && OnWire(bytes[..n], f, bytes[1] >= 128) && |f.payload| <= cap && rest == bytes[n..]
  {
    var front, raw, rest := SplitFrame(bytes, cap);
    FrontOnWire(bytes, front, raw, rest);
  }

  lemma {:induction false} BitsDetermine(a: nat, b: nat, bits: nat)
    requires a < Pow2(bits) && b < Pow2(bits) && forall k: nat :: k < bits ==> (Bit(a, k) <==> Bit(b, k))
    ensures a == b
    decreases bits
  {
    if bits > 0 {
      assert Bit(a, 0) <==> Bit(b, 0);
      forall k: nat | k < bits - 1
        ensures Bit(a / 2, k) <==> Bit(b / 2, k)
      {
        assert Bit(a, k + 1) <==> Bit(b, k + 1);
      }
      BitsDetermine(a / 2, b / 2, bits - 1);
    }
  }

  lemma FlipsOnce(wire: Byte, a: Byte, b: Byte, mask: Byte)
    requires Flips(wire, a, mask) && Flips(wire, b, mask)
    ensures a == b
  {
    Pow2Of8();
    BitsDetermine(a, b, 8);
  }

  lemma SameFirstOctet(a: Frame, b: Frame)
    requires a.opcode + a.rsv + (if a.fin then 128 else 0) == b.opcode + b.rsv + (if b.fin then 128 else 0)
    ensures a.opcode == b.opcode && a.rsv == b.rsv && a.fin == b.fin
  {
    FirstByteFields(a);
    FirstByteFields(b);
  }

  /** The octets stand for at most one frame. */
  lemma OnWireOnce(wire: seq<Byte>, a: Frame, b: Frame, masked: bool)
    requires OnWire(wire, a, masked) && OnWire(wire, b, masked)
    ensures a == b
  {
    SameFirstOctet(a, b);
    var code := wire[1] % 128;
    var need := 2 + (if code == 126 then 2 else if code == 127 then 8 else 0) + if masked then 4 else 0;
    forall i | 0 <= i < |a.payload|
      ensures a.payload[i] == b.payload[i]
    {
      if masked {
        FlipsOnce(wire[need + i], a.payload[i], b.payload[i], wire[need - 4 + i % 4]);
      }
    }
    assert a.payload == b.payload;
  }

  /** The length the header announces is the number of octets after it. */
  lemma WireLength(wire: seq<Byte>, front: seq<Byte>, raw: seq<Byte>, f: Frame, masked: bool)
    requires OnWire(wire, f, masked) && wire == front + raw
    requires |front| >= 2 && |front| == FrameHeaderLen(front)
    ensures |raw| == |f.payload| == CompleteHeader(front).payloadLen
  {
    HeaderOctets(front);
    assert forall i :: 0 <= i < |front| ==> wire[i] == front[i];
  }

  lemma WireParts(wire: seq<Byte>, f: Frame, masked: bool) returns (front: seq<Byte>, raw: seq<Byte>)
    requires OnWire(wire, f, masked)
    ensures wire == front + raw && |front| >= 2 && |front| == FrameHeaderLen(front)
    ensures |raw| == CompleteHeader(front).payloadLen == |f.payload| && FrameFrom(CompleteHeader(front), raw) == f
  {
    assert |wire| >= FrameHeaderLen(wire);
    front, raw := SplitHeader(wire);
    WireLength(wire, front, raw, f, masked);
    SameFrame(wire, front, raw, f, masked);
  }

  lemma SameFrame(wire: seq<Byte>, front: seq<Byte>, raw: seq<Byte>, f: Frame, masked: bool)
    requires OnWire(wire, f, masked) && wire == front + raw
    requires |front| >= 2 && |front| == FrameHeaderLen(front) && |raw| == CompleteHeader(front).payloadLen
    ensures FrameFrom(CompleteHeader(front), raw) == f
  {
    PartsOnWire(front, raw);
    assert wire[1] == front[1];
    OnWireOnce(wire, f, FrameFrom(CompleteHeader(front), raw), masked);
  }

  /** Whatever follows the octets of a frame, the decoder returns the frame and what follows. */
  lemma WireIsDecoded(wire: seq<Byte>, f: Frame, masked: bool, rest: seq<Byte>, cap: nat)
    requires OnWire(wire, f, masked) && |f.payload| <= cap
    ensures DecodeFrame(wire + rest, cap) == Ok((f, rest))
  {
    var front, raw := WireParts(wire, f, masked);
    DecodeParts(front, raw, rest, cap);
    Associative(front, raw, rest);
  }

  /** The encoder writes the octets of the frame, with the key it was given and the shortest length code. */
  lemma EncodedIsOnWire(frame: Frame, masked: bool, mask: Mask)
    requires frame.Valid()
    ensures var wire, n := EncodedFrame(frame, masked, mask), |frame.payload|;
            && OnWire(wire, frame, masked)
            && wire[1] % 128 == (if n < 126 then n else if n < 0x1_0000 then 126 else 127)
            && (masked ==> wire[|wire| - n - 4..|wire| - n] == mask)
  {
    var front, raw := FrameFront(frame, masked, mask), WirePayload(frame, masked, mask);
    EncodedHeader(frame, masked, mask);
    PartsOnWire(front, raw);
    FrameBack(frame, masked, mask, |frame.payload|);
    SecondByteFields(CodeFor(|frame.payload|), masked);
    assert front[1] == SecondByte(CodeFor(|frame.payload|), masked);
  }
}
