/** The token counts that upstream reports, and the two questions asked of a JSON payload. */
module UsageTypes {
  import opened Prelude
  import opened WebSocketFrames

  datatype TokenUsage = TokenUsage(input: nat, cached: nat, output: nat, reasoning: nat)

  const NO_USAGE := TokenUsage(0, 0, 0, 0)

  type Positive = x: int | x > 0 witness 1

  /**
   JSON inspection is a parameter: `usage` is the completed-response extraction, `limit` the
   limit-error test, and `cap` the size above which a message is not inspected for limits. The decoder
   that extracts usage reads a text as it arrives: it has its value or its syntax error exactly at the
   prefixes that are `complete`, and holding n bytes it asks for up to `room(n)` more.
   */
  datatype Probes = Probes(
    usage: seq<Byte> -> Option<TokenUsage>,
    limit: seq<Byte> -> bool,
    cap: nat,
    complete: seq<Byte> -> bool,
    room: nat -> Positive)

  datatype Call = OnUsage(usage: TokenUsage) | OnLimit

  /** What a capture has told its owner so far. */
  datatype Report = Report(calls: seq<Call>, usage: TokenUsage, found: bool, limitFound: bool)

  const NOTHING_REPORTED := Report([], NO_USAGE, false, false)

  function MarkLimit(r: Report): Report
  {
    if r.limitFound then r else r.(limitFound := true, calls := r.calls + [OnLimit])
  }
}
