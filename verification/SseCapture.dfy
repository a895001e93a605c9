/**
 The capture of a server-sent-event stream. It is written to in arbitrary chunks and works line by
 line; what it has found is a property of the complete lines of everything written.
 */
module SseCapture {
  import opened Prelude
  import opened WebSocketFrames
  import opened UsageTypes

  /** White-space trimming and JSON inspection are parameters. */
  datatype Inspection = Inspection(
    trim: seq<Byte> -> seq<Byte>,
    usage: seq<Byte> -> Option<TokenUsage>,
    limit: seq<Byte> -> bool)

  const NEWLINE: Byte := 10

  /** "data:" */
  const DATA_PREFIX: seq<Byte> := [100, 97, 116, 97, 58]
  /** "event:" */
  const EVENT_PREFIX: seq<Byte> := [101, 118, 101, 110, 116, 58]
  /** "response.completed" */
  const COMPLETED: seq<Byte> := [114, 101, 115, 112, 111, 110, 115, 101, 46, 99, 111, 109, 112, 108, 101, 116, 101, 100]
  /** "response.failed" */
  const FAILED: seq<Byte> := [114, 101, 115, 112, 111, 110, 115, 101, 46, 102, 97, 105, 108, 101, 100]
  /** "error" */
  const ERROR: seq<Byte> := [101, 114, 114, 111, 114]
  /** "[DONE]" */
  const DONE: seq<Byte> := [91, 68, 79, 78, 69, 93]

  // ---------------------------------------------------------------- lines

  /** The length of the first line with its newline, if it is complete. */
  function FirstLine(bytes: seq<Byte>): (r: Option<nat>)
    ensures r.Some? ==> 0 < r.value <= |bytes|
  {
    if bytes == [] then None
    else if bytes[0] == NEWLINE then Some(1)
    else
      match FirstLine(bytes[1..])
      case None => None
      case Some(n) => Some(n + 1)
  }

  lemma {:induction false} FirstLineIsLine(bytes: seq<Byte>)
    ensures FirstLine(bytes) == None ==> NEWLINE !in bytes
    ensures FirstLine(bytes).Some? ==> IsLine(bytes[..FirstLine(bytes).value])
  {
    if bytes != [] && bytes[0] != NEWLINE {
      FirstLineIsLine(bytes[1..]);
      assert bytes == [bytes[0]] + bytes[1..];
      if FirstLine(bytes).Some? {
        var n := FirstLine(bytes).value;
        assert bytes[..n - 1] == [bytes[0]] + bytes[1..][..n - 2];
        assert bytes[..n][..n - 1] == bytes[..n - 1];
        assert bytes[1..][..n - 1][..n - 2] == bytes[1..][..n - 2];
      }
    }
  }

  function Lines(bytes: seq<Byte>): seq<seq<Byte>>
  {
    match FirstLine(bytes)
    case None => []
    case Some(n) => [bytes[..n]] + Lines(bytes[n..])
  }

  /** The unterminated rest. */
  function Tail(bytes: seq<Byte>): seq<Byte>
  {
    match FirstLine(bytes)
    case None => bytes
    case Some(n) => Tail(bytes[n..])
  }

  predicate IsLine(line: seq<Byte>)
  {
    line != [] && line[|line| - 1] == NEWLINE && NEWLINE !in line[..|line| - 1]
  }

  lemma {:induction false} FirstLineOf(line: seq<Byte>, rest: seq<Byte>)
    requires IsLine(line)
    ensures FirstLine(line + rest) == Some(|line|)
  {
    assert (line + rest)[0] == line[0];
    if |line| > 1 {
      assert line[0] == line[..|line| - 1][0];
      var shorter := line[1..];
      assert shorter[..|shorter| - 1] == line[..|line| - 1][1..];
      FirstLineOf(shorter, rest);
      assert (line + rest)[1..] == shorter + rest;
    }
  }

  lemma {:induction false} NoLine(bytes: seq<Byte>)
    requires NEWLINE !in bytes
    ensures FirstLine(bytes) == None
  {
    if bytes != [] {
      NoLine(bytes[1..]);
    }
  }

  /** Lines and tail are the one way to write the bytes as complete lines and an unterminated rest. */
  lemma {:induction false} LinesAreUnique(lines: seq<seq<Byte>>, tail: seq<Byte>)
    requires forall line <- lines :: IsLine(line)
    requires NEWLINE !in tail
    ensures Lines(Joined(lines) + tail) == lines && Tail(Joined(lines) + tail) == tail
  {
    var bytes := Joined(lines) + tail;
    if lines == [] {
      assert bytes == tail;
      NoLine(tail);
    } else {
      var rest := Joined(lines[1..]) + tail;
      assert bytes == lines[0] + rest;
      FirstLineOf(lines[0], rest);
      assert bytes[|lines[0]|..] == rest && bytes[..|lines[0]|] == lines[0];
      LinesAreUnique(lines[1..], tail);
    }
  }

  lemma LinesStep(bytes: seq<Byte>, n: nat)
    requires n <= |bytes| && FirstLine(bytes) == Some(n)
    ensures Lines(bytes) == [bytes[..n]] + Lines(bytes[n..]) && Tail(bytes) == Tail(bytes[n..])
  {
  }

  /** One line in front of bytes that are already split. */
  lemma JoinsFront(first: seq<Byte>, lines: seq<seq<Byte>>, tail: seq<Byte>, rest: seq<Byte>)
    requires Joined(lines) + tail == rest
    ensures Joined([first] + lines) + tail == first + rest
  {
    JoinedCons(first, lines);
    Associative(first, Joined(lines), tail);
  }

  lemma {:induction false} LinesJoin(bytes: seq<Byte>)
    ensures Joined(Lines(bytes)) + Tail(bytes) == bytes
    decreases |bytes|
  {
    match FirstLine(bytes)
    case None =>
      assert Lines(bytes) == [] && Tail(bytes) == bytes;
    case Some(n) =>
      var first, rest := bytes[..n], bytes[n..];
      LinesStep(bytes, n);
      LinesJoin(rest);
      JoinsFront(first, Lines(rest), Tail(rest), rest);
      assert bytes == first + rest;
  }

  lemma {:induction false} LinesAreLines(bytes: seq<Byte>)
    ensures NEWLINE !in Tail(bytes)
    ensures forall i :: 0 <= i < |Lines(bytes)| ==> IsLine(Lines(bytes)[i])
    decreases |bytes|
  {
    FirstLineIsLine(bytes);
    match FirstLine(bytes)
    case None =>
    case Some(n) =>
      LinesAreLines(bytes[n..]);
  }

  lemma {:induction false} LinesConcat(a: seq<Byte>, b: seq<Byte>)
    ensures Lines(a + b) == Lines(a) + Lines(Tail(a) + b)
    ensures Tail(a + b) == Tail(Tail(a) + b)
    decreases |a|
  {
    match FirstLine(a)
    case None =>
    case Some(n) =>
      FirstLineIsLine(a);
      assert a == a[..n] + a[n..] && a + b == a[..n] + (a[n..] + b);
      FirstLineOf(a[..n], a[n..] + b);
      assert (a + b)[..n] == a[..n] && (a + b)[n..] == a[n..] + b;
      LinesConcat(a[n..], b);
  }

  lemma NextLine(handled: seq<seq<Byte>>, bytes: seq<Byte>)
    requires FirstLine(bytes).Some?
    ensures var n := FirstLine(bytes).value;
            && handled + Lines(bytes) == (handled + [bytes[..n]]) + Lines(bytes[n..])
            && Tail(bytes) == Tail(bytes[n..])
  {
  }

  // ---------------------------------------------------------------- what a line is

  datatype Kind = Blank | Event(name: seq<Byte>) | Data(payload: seq<Byte>) | Other

  function Classify(line: seq<Byte>, ins: Inspection): Kind
  {
    var text := ins.trim(line);
    if text == [] then Blank
    else if EVENT_PREFIX <= text then Event(ins.trim(text[|EVENT_PREFIX|..]))
    else if !(DATA_PREFIX <= text) then Other
    else
      var payload := ins.trim(text[|DATA_PREFIX|..]);
      if payload == [] || payload == DONE then Other else Data(payload)
  }

  /** The octet of an ASCII character; the others do not occur. */
  function Octet(c: char): Byte
  {
    if c as int < 128 then c as int else 0
  }

  function Octets(text: string): (r: seq<Byte>)
    ensures |r| == |text|
  {
    seq(|text|, i requires 0 <= i < |text| => Octet(text[i]))
  }

  lemma NamesAreText()
    ensures EVENT_PREFIX == Octets("event:") && DATA_PREFIX == Octets("data:") && DONE == Octets("[DONE]")
    ensures COMPLETED == Octets("response.completed") && FAILED == Octets("response.failed")
    ensures ERROR == Octets("error") && [NEWLINE] == Octets("\n")
  {
  }

  /** Which lines are which, by the text between their outer white space. */
  lemma LineKinds(line: seq<Byte>, ins: Inspection)
    ensures var text, kind := ins.trim(line), Classify(line, ins);
            && (kind == Blank <==> text == [])
            && (forall name :: kind == Event(name) <==>
                  exists more :: text == Octets("event:") + more && name == ins.trim(more))
            && (forall payload :: kind == Data(payload) <==>
                  && payload != [] && payload != Octets("[DONE]")
                  && exists more :: text == Octets("data:") + more && payload == ins.trim(more))
  {
    NamesAreText();
    var text, kind := ins.trim(line), Classify(line, ins);
    if EVENT_PREFIX <= text {
      assert text == EVENT_PREFIX + text[|EVENT_PREFIX|..];
    }
    if DATA_PREFIX <= text {
      assert text == DATA_PREFIX + text[|DATA_PREFIX|..];
    }
    forall more | text == EVENT_PREFIX + more
      ensures kind == Event(ins.trim(more))
    {
      assert text[|EVENT_PREFIX|..] == more;
    }
    forall more | text == DATA_PREFIX + more
      ensures !(EVENT_PREFIX <= text) && text[|DATA_PREFIX|..] == more
    {
      assert text[0] == DATA_PREFIX[0] && EVENT_PREFIX[0] != DATA_PREFIX[0];
    }
  }

  function Kinds(lines: seq<seq<Byte>>, ins: Inspection): (r: seq<Kind>)
    ensures |r| == |lines|
  {
    seq(|lines|, i requires 0 <= i < |lines| => Classify(lines[i], ins))
  }

  /** The event name in force at line i: set by the last event line since the last blank line. */
  function EventAt(kinds: seq<Kind>, i: nat): seq<Byte>
    requires i <= |kinds|
  {
    if i == 0 then []
    else
      match kinds[i - 1]
      case Blank => []
      case Event(name) => name
      case _ => EventAt(kinds, i - 1)
  }

  predicate IsLimitLine(kinds: seq<Kind>, i: int, ins: Inspection)
  {
    && 0 <= i < |kinds| && kinds[i].Data?
    && (EventAt(kinds, i) == FAILED || EventAt(kinds, i) == ERROR)
    && ins.limit(kinds[i].payload)
  }

  function UsageAt(kinds: seq<Kind>, i: int, ins: Inspection): Option<TokenUsage>
  {
    if 0 <= i < |kinds| && kinds[i].Data? && EventAt(kinds, i) == COMPLETED then ins.usage(kinds[i].payload)
    else None
  }

  /** Line i carries `usage`, and no line after it carries any. */
  predicate IsLastUsageLine(kinds: seq<Kind>, i: int, usage: TokenUsage, ins: Inspection)
  {
    && UsageAt(kinds, i, ins) == Some(usage)
    && forall j :: i < j < |kinds| ==> UsageAt(kinds, j, ins) == None
  }

  /** What the capture must have found once lines of these kinds have arrived. */
  ghost predicate Found(r: Report, currentEvent: seq<Byte>, kinds: seq<Kind>, ins: Inspection)
  {
    && currentEvent == EventAt(kinds, |kinds|)
    && (r.limitFound <==> exists i :: IsLimitLine(kinds, i, ins))
    && r.calls == (if r.limitFound then [OnLimit] else [])
    && (r.found <==> exists i :: IsLastUsageLine(kinds, i, r.usage, ins))
    && (!r.found ==> forall i :: UsageAt(kinds, i, ins) == None)
  }

  // ---------------------------------------------------------------- one line

  /** The effect of one complete line on the report and the current event. */
  function ProcessLine(r: Report, event: seq<Byte>, kind: Kind, ins: Inspection): (Report, seq<Byte>)
  {
    match kind
    case Blank => (r, [])
    case Event(name) => (r, name)
    case Other => (r, event)
    case Data(payload) =>
      var marked := if (event == FAILED || event == ERROR) && ins.limit(payload) then MarkLimit(r) else r;
      if event != COMPLETED then (marked, event)
      else
        match ins.usage(payload)
        case None => (marked, event)
        case Some(u) => (marked.(usage := u, found := true), event)
  }

  lemma {:induction false} EarlierLinesUnchanged(kinds: seq<Kind>, kind: Kind, i: nat, ins: Inspection)
    requires i <= |kinds|
    ensures EventAt(kinds + [kind], i) == EventAt(kinds, i)
    ensures i < |kinds| ==> UsageAt(kinds + [kind], i, ins) == UsageAt(kinds, i, ins)
    ensures i < |kinds| ==> IsLimitLine(kinds + [kind], i, ins) == IsLimitLine(kinds, i, ins)
  {
    if i > 0 {
      EarlierLinesUnchanged(kinds, kind, i - 1, ins);
    }
  }

  lemma LimitStep(r: Report, event: seq<Byte>, kinds: seq<Kind>, kind: Kind, ins: Inspection)
    requires Found(r, event, kinds, ins)
    ensures var after := ProcessLine(r, event, kind, ins).0;
            && (after.limitFound <==> exists i :: IsLimitLine(kinds + [kind], i, ins))
            && after.calls == (if after.limitFound then [OnLimit] else [])
  {
    var all, n := kinds + [kind], |kinds|;
    EarlierLinesUnchanged(kinds, kind, n, ins);
    var after := ProcessLine(r, event, kind, ins).0;
    assert after.limitFound <==> r.limitFound || IsLimitLine(all, n, ins);
    if i :| IsLimitLine(all, i, ins) {
      if i < n {
        EarlierLinesUnchanged(kinds, kind, i, ins);
        assert IsLimitLine(kinds, i, ins);
      }
    }
    if i :| IsLimitLine(kinds, i, ins) {
      EarlierLinesUnchanged(kinds, kind, i, ins);
      assert IsLimitLine(all, i, ins);
    }
  }

  lemma UsageStep(r: Report, event: seq<Byte>, kinds: seq<Kind>, kind: Kind, ins: Inspection)
    requires Found(r, event, kinds, ins)
    ensures var after := ProcessLine(r, event, kind, ins).0;
            && (after.found <==> exists i :: IsLastUsageLine(kinds + [kind], i, after.usage, ins))
            && (!after.found ==> forall i :: UsageAt(kinds + [kind], i, ins) == None)
  {
    var all, n := kinds + [kind], |kinds|;
    EarlierLinesUnchanged(kinds, kind, n, ins);
    forall i: nat | i < n
      ensures UsageAt(all, i, ins) == UsageAt(kinds, i, ins)
    {
      EarlierLinesUnchanged(kinds, kind, i, ins);
    }
    var after := ProcessLine(r, event, kind, ins).0;
    if UsageAt(all, n, ins).Some? {
      assert IsLastUsageLine(all, n, after.usage, ins);
    } else {
      assert after.found == r.found && after.usage == r.usage;
      if r.found {
        var i :| IsLastUsageLine(kinds, i, r.usage, ins);
        assert IsLastUsageLine(all, i, r.usage, ins);
      }
    }
  }

  /** The capture's own step keeps its findings right. */
  lemma FoundStep(r: Report, event: seq<Byte>, kinds: seq<Kind>, kind: Kind, ins: Inspection)
    requires Found(r, event, kinds, ins)
    ensures var (after, next) := ProcessLine(r, event, kind, ins);
            Found(after, next, kinds + [kind], ins)
  {
    LimitStep(r, event, kinds, kind, ins);
    UsageStep(r, event, kinds, kind, ins);
    EarlierLinesUnchanged(kinds, kind, |kinds|, ins);
  }

  lemma LineHandled(r: Report, event: seq<Byte>, lines: seq<seq<Byte>>, line: seq<Byte>, ins: Inspection)
    requires Found(r, event, Kinds(lines, ins), ins)
    ensures var (after, next) := ProcessLine(r, event, Classify(line, ins), ins);
            Found(after, next, Kinds(lines + [line], ins), ins)
  {
    FoundStep(r, event, Kinds(lines, ins), Classify(line, ins), ins);
    assert Kinds(lines + [line], ins) == Kinds(lines, ins) + [Classify(line, ins)];
  }

  // ---------------------------------------------------------------- the capture object

  class SseUsageCapture {
    const ins: Inspection
    var buffer: seq<Byte>
    var currentEvent: seq<Byte>
    var usage: TokenUsage
    var found: bool
    var limitFound: bool
    var calls: seq<Call>

    /** Every byte written so far. */
    ghost var seen: seq<Byte>

    constructor (ins: Inspection)
      ensures Valid() && this.ins == ins && seen == []
    {
      this.ins := ins;
      buffer, currentEvent, seen := [], [], [];
      usage, found, limitFound, calls := NO_USAGE, false, false, [];
    }

    function CurrentReport(): Report
      reads this
    {
      Report(calls, usage, found, limitFound)
    }

    /** The findings are those of the complete lines, and the buffer is the unterminated rest. */
    ghost predicate Valid()
      reads this
    {
      Found(CurrentReport(), currentEvent, Kinds(Lines(seen), ins), ins) && buffer == Tail(seen)
    }

    method Write(p: seq<Byte>)
      requires Valid()
      modifies this
      ensures Valid() && seen == old(seen) + p
    {
      LinesConcat(seen, p);
      buffer := buffer + p;
      seen := seen + p;
      ghost var handled := Lines(old(seen));
      var more := true;
      while more
        invariant seen == old(seen) + p
        invariant Lines(seen) == handled + Lines(buffer) && Tail(seen) == Tail(buffer)
        invariant Found(CurrentReport(), currentEvent, Kinds(handled, ins), ins)
        invariant !more ==> FirstLine(buffer) == None
        decreases more, |buffer|
      {
        var end := FirstLine(buffer);
        if end == None {
          more := false;
        } else {
          var line := buffer[..end.value];
          LineHandled(CurrentReport(), currentEvent, handled, line, ins);
          NextLine(handled, buffer);
          buffer := buffer[end.value..];
          handled := handled + [line];
          HandleLine(line);
        }
      }
      assert handled + [] == handled;
    }

    /** The body of the loop for one complete line. */
    method HandleLine(line: seq<Byte>)
      modifies this`currentEvent, this`usage, this`found, this`limitFound, this`calls
      ensures (CurrentReport(), currentEvent)
           == ProcessLine(old(CurrentReport()), old(currentEvent), Classify(line, ins), ins)
    {
      var payload := ins.trim(line);
      if |payload| == 0 {
        currentEvent := [];
        return;
      }
      if EVENT_PREFIX <= payload {
        currentEvent := ins.trim(payload[|EVENT_PREFIX|..]);
        return;
      }
      if !(DATA_PREFIX <= payload) {
        return;
      }
      payload := ins.trim(payload[|DATA_PREFIX|..]);
      if |payload| == 0 || payload == DONE {
        return;
      }
      if (currentEvent == FAILED || currentEvent == ERROR) && ins.limit(payload) {
        MarkLimitFound();
      }
      if currentEvent != COMPLETED {
        return;
      }
      var u := ins.usage(payload);
      if u == None {
        return;
      }
      usage := u.value;
      found := true;
    }

    method MarkLimitFound()
      modifies this`limitFound, this`calls
      ensures CurrentReport() == MarkLimit(old(CurrentReport()))
    {
      if limitFound {
        return;
      }
      limitFound := true;
      calls := calls + [OnLimit];
    }
  }

  /** The findings do not depend on how the stream was cut: they are a function of its bytes. */
  lemma FindingsAreUnique(r1: Report, e1: seq<Byte>, r2: Report, e2: seq<Byte>, bytes: seq<Byte>, ins: Inspection)
    requires Found(r1, e1, Kinds(Lines(bytes), ins), ins) && Found(r2, e2, Kinds(Lines(bytes), ins), ins)
    ensures e1 == e2 && r1.limitFound == r2.limitFound && r1.calls == r2.calls && r1.found == r2.found
    ensures r1.found ==> r1.usage == r2.usage
  {
    var kinds := Kinds(Lines(bytes), ins);
    if i :| IsLastUsageLine(kinds, i, r1.usage, ins) {
      assert UsageAt(kinds, i, ins).Some?;
    }
    if j :| IsLastUsageLine(kinds, j, r2.usage, ins) {
      assert UsageAt(kinds, j, ins).Some?;
    }
  }
}
