/**
 What one request does to the pool, as a function of what it met: the token it picked and when, the results
 of the refreshes, the replies, and the times of its updates. A request has one or two turns, one per token.
 */
module Turns {
  import opened Prelude
  import opened TokenPool

  /** What the handlers ask of an upstream response; the predicates on its body are part of it. */
  datatype Reply = Reply(
    status: int, deactivated: bool, limit: bool, stream: bool,
    fiveHour: Option<Window>, weekly: Option<Window>,
    limitInStream: bool)

  /** A request sent upstream with a token's credentials; without a reply the transport failed. */
  datatype Call = Call(tokenID: string, accessToken: string, reply: Option<Reply>)

  datatype RefreshResult =
    | NotRefreshed
    | NewCredentials(accessToken: string, refreshToken: string)
    | RefreshFailed(permanent: bool)

  /** The moment of the choice, and the refresh of stale credentials that followed. */
  datatype Pick = Pick(at: nat, renewal: RefreshResult, renewedAt: nat)

  /** The refresh after a 401, if there was one, is the outcome. */
  datatype Turn =
    | NoToken(pick: Pick)
    | Turn(pick: Pick, id: string, sticky: bool, calls: seq<Call>, outcome: Option<RefreshResult>,
           refreshedAt: nat, usageAt: nat, cooledAt: nat)
  {
    function Calls(): seq<Call>
    {
      if NoToken? then [] else calls
    }
  }

  const UNAUTHORIZED := 401
  const SWITCHING_PROTOCOLS := 101
  const COOLDOWN := 60

  // ---------------------------------------------------------------- calls and their replies

  /** The last reply a token got. */
  function LastReply(log: seq<Call>, id: string): Option<Reply>
  {
    if log == [] then None
    else
      var last := log[|log| - 1];
      if last.tokenID == id then last.reply else LastReply(log[..|log| - 1], id)
  }

  /** The reply to the last call. */
  function FinalReply(log: seq<Call>): Option<Reply>
  {
    if log == [] then None else log[|log| - 1].reply
  }

  function UsedTokens(log: seq<Call>): set<string>
  {
    set call | call in log :: call.tokenID
  }

  predicate SameToken(calls: seq<Call>)
  {
    forall i :: 0 <= i < |calls| ==> calls[i].tokenID == calls[0].tokenID
  }

  /** A token's turn: one call, or a second one after a 401. */
  predicate OneTurn(calls: seq<Call>)
  {
    && |calls| <= 2 && SameToken(calls)
    && (|calls| == 2 ==> calls[0].reply.Some? && calls[0].reply.value.status == UNAUTHORIZED)
  }

  /** One turn of the token; its last call got this reply. */
  ghost predicate Called(calls: seq<Call>, tokenID: string, reply: Option<Reply>)
  {
    calls != [] && OneTurn(calls) && calls[0].tokenID == tokenID && FinalReply(calls) == reply
  }

  ghost predicate FairAttempt(calls: seq<Call>, tried: set<string>)
  {
    OneTurn(calls) && (calls != [] ==> calls[0].tokenID !in tried)
  }

  /** A 401 is followed by a refresh, and the call is made again exactly if that gave new credentials. */
  ghost predicate RetriedOnce(calls: seq<Call>, outcome: Option<RefreshResult>)
  {
    && calls != [] && OneTurn(calls)
    && (outcome.Some? <==> calls[0].reply.Some? && calls[0].reply.value.status == UNAUTHORIZED)
    && (|calls| == 2 <==> outcome.Some? && outcome.value.NewCredentials?)
  }

  /** Each call carries the newest credentials. */
  ghost predicate CallsFit(p: Pool, id: string, calls: seq<Call>, outcome: Option<RefreshResult>)
  {
    && RetriedOnce(calls, outcome) && calls[0].tokenID == id && id in p.tokens
    && calls[0].accessToken == p.tokens[id].accessToken
    && (|calls| == 2 ==> calls[1].accessToken == outcome.value.accessToken)
  }

  lemma OneToken(calls: seq<Call>, id: string)
    requires calls != [] && forall i :: 0 <= i < |calls| ==> calls[i].tokenID == id
    ensures UsedTokens(calls) == {id} && SameToken(calls) && LastReply(calls, id) == FinalReply(calls)
  {
    assert calls[0] in calls;
  }

  lemma {:induction false} LastReplyOfBoth(first: seq<Call>, more: seq<Call>, id: string)
    ensures LastReply(first + more, id) == if id in UsedTokens(more) then LastReply(more, id) else LastReply(first, id)
    decreases more
  {
    if more == [] {
      assert first + more == first;
    } else {
      var init := more[..|more| - 1];
      assert (first + more)[..|first + more| - 1] == first + init;
      assert more == init + [more[|more| - 1]];
      LastReplyOfBoth(first, init, id);
    }
  }

  lemma UsedByBoth(first: seq<Call>, more: seq<Call>)
    ensures UsedTokens(first + more) == UsedTokens(first) + UsedTokens(more)
  {
    assert forall call :: call in first + more <==> call in first || call in more;
  }

  function CallsOf(turns: seq<Turn>): seq<Call>
  {
    if turns == [] then [] else turns[0].Calls() + CallsOf(turns[1..])
  }

  lemma CallsOfFew(turns: seq<Turn>)
    requires 1 <= |turns| <= 2
    ensures CallsOf(turns) == turns[0].Calls() + if |turns| == 2 then turns[1].Calls() else []
  {
  }

  // ---------------------------------------------------------------- single effects on the pool

  /** The token cools down and its sessions are free. */
  function Rested(p: Pool, id: string, at: nat): Pool
  {
    ClearSessionsForToken(MarkCooldown(p, id, at + COOLDOWN), id)
  }

  /** A refresh of stale credentials may fail without a consequence. */
  function Renewed(p: Pool, id: string, renewal: RefreshResult, at: nat): Pool
  {
    if renewal.NewCredentials? then UpdateCredentials(p, id, renewal.accessToken, renewal.refreshToken, at) else p
  }

  /** What the result of a refresh after a 401 leaves of the store. */
  function AfterRefresh(p: Pool, id: string, outcome: RefreshResult, at: nat): Pool
  {
    match outcome
    case NotRefreshed => p
    case NewCredentials(accessToken, refreshToken) => UpdateCredentials(p, id, accessToken, refreshToken, at)
    case RefreshFailed(permanent) =>
      if permanent then MarkInvalid(p, id) else MarkCooldown(p, id, at + COOLDOWN)
  }

  function AfterCalls(p: Pool, id: string, outcome: Option<RefreshResult>, at: nat): Pool
  {
    if outcome.Some? then AfterRefresh(p, id, outcome.value, at) else p
  }

  /** An unknown window changes nothing; a known one keeps the reset times it does not give. */
  function MergeUsage(current: Window, update: Window): (r: Window)
    ensures !update.known ==> r == current
    ensures update.known ==>
              && r.known && r.usedPercent == update.usedPercent && r.limitPercent == update.limitPercent
              && (update.resetAt.Some? ==> r.resetAt == update.resetAt)
              && (update.resetAt.None? ==> r.resetAt == current.resetAt)
              && r.resetAfter == if update.resetAfter == 0 then current.resetAfter else update.resetAfter
  {
    if !update.known then current
    else
      update.(resetAfter := if update.resetAfter == 0 then current.resetAfter else update.resetAfter,
              resetAt := if update.resetAt.None? then current.resetAt else update.resetAt)
  }

  function Merged(current: Window, update: Option<Window>): Window
  {
    if update.Some? then MergeUsage(current, update.value) else current
  }

  /** The windows a reply names replace the known ones; the others stay. */
  function AfterUsage(p: Pool, id: string, reply: Reply, at: nat): Pool
  {
    if id !in p.tokens || (reply.fiveHour == None && reply.weekly == None) then p
    else
      var current := p.tokens[id];
      UpdateUsage(p, id, Merged(current.fiveHour, reply.fiveHour), Merged(current.weekly, reply.weekly), at)
  }

  // ---------------------------------------------------------------- what a request may leave behind

  /** No session is bound to the token, and it is gone or cooling down. */
  ghost predicate Settled(p: Pool, id: string, start: nat)
  {
    && (id in p.tokens ==> p.tokens[id].cooldownUntil.Some? && p.tokens[id].cooldownUntil.value >= start + COOLDOWN)
    && forall s :: s in p.sessions ==> p.sessions[s] != id
  }

  ghost predicate AnyUsable(p: Pool, tried: set<string>, now: nat)
  {
    exists id :: Usable(p, id, tried, now)
  }

  /**
   Only used tokens have changed. Other sessions are lost only with a failed token and never bound anew;
   the session of the request may be dropped, and is bound to a used token only if `bound`.
   */
  ghost predicate OnlyTouches(before: Pool, after: Pool, used: set<string>, failed: set<string>,
                              sessionID: string, bound: bool)
  {
    && (forall id :: id !in used ==> (id in after.tokens <==> id in before.tokens))
    && (forall id :: id !in used && id in after.tokens ==> after.tokens[id] == before.tokens[id])
    && (forall s :: s in after.sessions ==>
          || (s in before.sessions && after.sessions[s] == before.sessions[s])
          || (bound && s == sessionID && sessionID != "" && after.sessions[s] in used))
    && (forall s :: s in before.sessions && s != sessionID && before.sessions[s] !in failed ==> s in after.sessions)
  }

  lemma TouchesCompose(p: Pool, q: Pool, r: Pool, a: set<string>, b: set<string>,
                       failedA: set<string>, failedB: set<string>, sessionID: string, bound: bool)
    requires OnlyTouches(p, q, a, failedA, sessionID, false) && OnlyTouches(q, r, b, failedB, sessionID, bound)
    ensures OnlyTouches(p, r, a + b, failedA + failedB, sessionID, bound)
  {
  }

  lemma SettledStays(p: Pool, q: Pool, id: string, others: set<string>, failed: set<string>,
                     sessionID: string, bound: bool, start: nat)
    requires Settled(p, id, start) && OnlyTouches(p, q, others, failed, sessionID, bound) && id !in others
    ensures Settled(q, id, start)
  {
  }

  /** The tokens are the same but for one, and that one has the same quota windows. */
  ghost predicate SameWindows(p: Pool, q: Pool, id: string)
  {
    && q.tokens.Keys == p.tokens.Keys
    && (forall other :: other in p.tokens && other != id ==> q.tokens[other] == p.tokens[other])
    && (id in p.tokens ==> q.tokens[id].fiveHour == p.tokens[id].fiveHour && q.tokens[id].weekly == p.tokens[id].weekly)
  }

  /** A refresh changes no window and no session. */
  lemma RefreshKeeps(p: Pool, id: string, outcome: RefreshResult, at: nat)
    ensures var q := AfterRefresh(p, id, outcome, at); SameWindows(p, q, id) && q.sessions == p.sessions
  {
  }

  lemma RenewalKeeps(p: Pool, id: string, renewal: RefreshResult, at: nat)
    ensures var q := Renewed(p, id, renewal, at); SameWindows(p, q, id) && q.sessions == p.sessions
  {
    if renewal.NewCredentials? {
      RefreshKeeps(p, id, renewal, at);
    }
  }

  lemma RestSettles(p: Pool, id: string, at: nat, start: nat)
    requires at >= start
    ensures var q := Rested(p, id, at);
            Settled(q, id, start) && SameWindows(p, q, id) && q.sessions == WithoutSessionsOf(p.sessions, {id})
  {
  }

  lemma UsageCounts(p: Pool, id: string, reply: Reply, at: nat)
    requires id in p.tokens
    ensures var q := AfterUsage(p, id, reply, at);
            && q.tokens.Keys == p.tokens.Keys && q.sessions == p.sessions
            && (forall other :: other in p.tokens && other != id ==> q.tokens[other] == p.tokens[other])
            && q.tokens[id].fiveHour == Merged(p.tokens[id].fiveHour, reply.fiveHour)
            && q.tokens[id].weekly == Merged(p.tokens[id].weekly, reply.weekly)
  {
  }

  lemma NoneEarlier(p: Pool, tried: set<string>, earlier: nat, at: nat)
    requires CanHappen(p, FoundNone(tried, at)) && earlier <= at
    ensures !AnyUsable(p, tried, earlier)
  {
    forall id | Usable(p, id, tried, earlier)
      ensures false
    {
      assert Usable(p, id, tried, at);
    }
  }

  // ---------------------------------------------------------------- the request and its turns

  /** The client's side of a request. It is `deliverable` if it can be flushed chunk by chunk, or hijacked. */
  datatype Client = Client(sessionID: string, websocket: bool, deliverable: bool, start: nat) {

    /** The reply sends the request on to another token. */
    predicate Rejected(reply: Reply)
    {
      reply.status == UNAUTHORIZED || reply.deactivated || (reply.limit && (websocket || !reply.stream))
    }

    /** The token of a deactivated workspace is removed. */
    predicate Removes(reply: Reply)
    {
      reply.status != UNAUTHORIZED && reply.deactivated
    }

    /** The body is passed through while it arrives, so a limit can still be found in it. */
    predicate Streaming(reply: Reply)
    {
      if websocket then reply.status == SWITCHING_PROTOCOLS else reply.stream
    }

    /** The reply counts against the token that got it. */
    predicate Failed(reply: Reply)
    {
      Rejected(reply) || (deliverable && Streaming(reply) && reply.limitInStream)
    }

    predicate BindsSession(reply: Reply)
    {
      sessionID != "" && !Failed(reply) && (websocket ==> reply.status == SWITCHING_PROTOCOLS)
    }

    /** Which replies do what over HTTP: the status and the body alone decide. */
    lemma HTTPReplies()
      requires !websocket
      ensures forall r: Reply :: Rejected(r) <==> r.status == 401 || r.deactivated || (r.limit && !r.stream)
      ensures forall r: Reply :: Failed(r) <==> Rejected(r) || (deliverable && r.stream && r.limitInStream)
      ensures forall r: Reply :: BindsSession(r) <==> sessionID != "" && !Failed(r)
      ensures forall r: Reply :: Streaming(r) <==> r.stream
    {
    }

    /** And for an upgrade, which is accepted with status 101. */
    lemma WebSocketReplies()
      requires websocket
      ensures forall r: Reply :: Rejected(r) <==> r.status == 401 || r.deactivated || r.limit
      ensures forall r: Reply :: Failed(r) <==> Rejected(r) || (deliverable && r.status == 101 && r.limitInStream)
      ensures forall r: Reply :: BindsSession(r) <==> sessionID != "" && !Failed(r) && r.status == 101
      ensures forall r: Reply :: Streaming(r) <==> r.status == 101
    {
    }

    /** The last reply left the session with its token. */
    predicate Binds(log: seq<Call>)
    {
      FinalReply(log).Some? && BindsSession(FinalReply(log).value)
    }

    function FailedTokens(log: seq<Call>): set<string>
    {
      set id | id in UsedTokens(log) && LastReply(log, id).Some? && Failed(LastReply(log, id).value)
    }

    // -------------------------------------------------------------- the effect of a turn

    function AfterPick(p: Pool, tried: set<string>, id: string, pick: Pick): Pool
    {
      Renewed(WithoutDeadSession(p, sessionID, tried, pick.at), id, pick.renewal, pick.renewedAt)
    }

    function AfterRejection(p: Pool, id: string, reply: Reply, usageAt: nat, cooledAt: nat): Pool
    {
      if reply.status == UNAUTHORIZED then Rested(p, id, cooledAt)
      else if reply.deactivated then RemoveToken(p, id)
      else Rested(AfterUsage(p, id, reply, usageAt), id, cooledAt)
    }

    /** An accepted reply before it is delivered. */
    function AfterAnswer(p: Pool, id: string, reply: Reply, usageAt: nat, cooledAt: nat): Pool
    {
      if Rejected(reply) then AfterRejection(p, id, reply, usageAt, cooledAt) else AfterUsage(p, id, reply, usageAt)
    }

    function AfterBinding(p: Pool, id: string, sticky: bool): Pool
    {
      if sessionID == "" || sticky then p else p.(sessions := p.sessions[sessionID := id])
    }

    function AfterStream(p: Pool, id: string, reply: Reply, cooledAt: nat): Pool
    {
      if deliverable && reply.limitInStream then Rested(p, id, cooledAt) else p
    }

    function AfterDelivery(p: Pool, id: string, sticky: bool, reply: Reply, cooledAt: nat): Pool
    {
      if Streaming(reply) then AfterStream(AfterBinding(p, id, sticky), id, reply, cooledAt)
      else if websocket then p
      else AfterBinding(p, id, sticky)
    }

    function AfterReply(p: Pool, id: string, sticky: bool, reply: Option<Reply>, usageAt: nat, cooledAt: nat): Pool
    {
      if reply.None? then p
      else
        var answered := AfterAnswer(p, id, reply.value, usageAt, cooledAt);
        if Rejected(reply.value) then answered else AfterDelivery(answered, id, sticky, reply.value, cooledAt)
    }

    /** The pool when the calls of the turn have been made. */
    function Reached(p: Pool, tried: set<string>, turn: Turn): Pool
      requires turn.Turn?
    {
      AfterCalls(AfterPick(p, tried, turn.id, turn.pick), turn.id, turn.outcome, turn.refreshedAt)
    }

    function AfterTurn(p: Pool, tried: set<string>, turn: Turn): Pool
    {
      if turn.NoToken? then WithoutDeadSession(p, sessionID, tried, turn.pick.at)
      else
        AfterReply(Reached(p, tried, turn), turn.id, turn.sticky, FinalReply(turn.calls), turn.usageAt, turn.cooledAt)
    }

    /** The sticky token if it can be used, else the best that can. */
    ghost predicate Chosen(p: Pool, tried: set<string>, at: nat, id: string, sticky: bool)
    {
      && (sticky <==> StickyUsable(p, sessionID, tried, at))
      && (if sticky then id == p.sessions[sessionID] else CanHappen(p, PickedRanked(id, tried, at)))
    }

    /** The turn is one that a request meets when it runs alone on that pool. */
    ghost predicate CanPlay(p: Pool, tried: set<string>, turn: Turn)
    {
      && turn.pick.at >= start
      && match turn
         case NoToken(pick) => CanHappen(p, FoundNone(tried, pick.at))
         case Turn(pick, id, sticky, calls, outcome, _, _, cooledAt) =>
           && Chosen(p, tried, pick.at, id, sticky)
           && CallsFit(AfterPick(p, tried, id, pick), id, calls, outcome)
           && cooledAt >= start
    }

    lemma AnsweredTurn(p: Pool, tried: set<string>, turn: Turn, reply: Reply, usageAt: nat, cooledAt: nat)
      requires turn.Turn? && CanPlay(p, tried, turn) && FinalReply(turn.calls) == Some(reply) && cooledAt >= start
      ensures var t := turn.(usageAt := usageAt, cooledAt := cooledAt);
              var q := AfterAnswer(Reached(p, tried, turn), turn.id, reply, usageAt, cooledAt);
              && CanPlay(p, tried, t)
              && AfterTurn(p, tried, t) ==
                 if Rejected(reply) then q else AfterDelivery(q, turn.id, turn.sticky, reply, cooledAt)
    {
    }

    // -------------------------------------------------------------- what a turn keeps

    /** The quota windows follow the last reply, unless it was a 401 or a deactivated workspace. */
    ghost predicate Accounted(before: Token, after: Token, reply: Option<Reply>)
    {
      if reply.Some? && reply.value.status != UNAUTHORIZED && !reply.value.deactivated then
        && after.fiveHour == Merged(before.fiveHour, reply.value.fiveHour)
        && after.weekly == Merged(before.weekly, reply.value.weekly)
      else
        after.fiveHour == before.fiveHour && after.weekly == before.weekly
    }

    /** A token is settled if its last reply failed, removed exactly if that says so, and accounted otherwise. */
    ghost predicate Marked(before: Pool, after: Pool, id: string, reply: Option<Reply>)
    {
      && id in before.tokens
      && (reply.Some? && Failed(reply.value) ==> Settled(after, id, start))
      && (id !in after.tokens <==> reply.Some? && Removes(reply.value))
      && (id in after.tokens ==> Accounted(before.tokens[id], after.tokens[id], reply))
    }

    ghost predicate CleanTurn(before: Pool, after: Pool, calls: seq<Call>)
    {
      && OnlyTouches(before, after, UsedTokens(calls), FailedTokens(calls), sessionID, Binds(calls))
      && (calls != [] ==> Marked(before, after, calls[0].tokenID, FinalReply(calls)))
      && (Binds(calls) ==> sessionID in after.sessions && after.sessions[sessionID] == calls[0].tokenID)
    }

    /** Choosing and calling change no quota window, and no session but a dead one. */
    lemma ReachedKeeps(p: Pool, tried: set<string>, turn: Turn)
      requires turn.Turn?
      ensures var q := Reached(p, tried, turn);
              && SameWindows(p, q, turn.id)
              && q.sessions == WithoutDeadSession(p, sessionID, tried, turn.pick.at).sessions
    {
      var picked := WithoutDeadSession(p, sessionID, tried, turn.pick.at);
      RenewalKeeps(picked, turn.id, turn.pick.renewal, turn.pick.renewedAt);
      if turn.outcome.Some? {
        RefreshKeeps(AfterPick(p, tried, turn.id, turn.pick), turn.id, turn.outcome.value, turn.refreshedAt);
      }
    }

    lemma RejectionMarks(p: Pool, id: string, reply: Reply, usageAt: nat, cooledAt: nat)
      requires id in p.tokens && cooledAt >= start && Rejected(reply)
      ensures var q := AfterRejection(p, id, reply, usageAt, cooledAt);
              Marked(p, q, id, Some(reply)) && OnlyTouches(p, q, {id}, {id}, sessionID, false)
    {
      if Removes(reply) {
      } else if reply.status == UNAUTHORIZED {
        RestSettles(p, id, cooledAt, start);
      } else {
        UsageCounts(p, id, reply, usageAt);
        RestSettles(AfterUsage(p, id, reply, usageAt), id, cooledAt, start);
      }
    }

    /** Delivery takes the session for the token, and a limit in the stream settles the token after all. */
    lemma DeliverySettlesOrBinds(p: Pool, id: string, sticky: bool, reply: Reply, cooledAt: nat)
      requires cooledAt >= start && !Rejected(reply)
      requires sticky ==> sessionID in p.sessions && p.sessions[sessionID] == id
      ensures var q := AfterDelivery(p, id, sticky, reply, cooledAt);
              && SameWindows(p, q, id)
              && (Failed(reply) ==> Settled(q, id, start))
              && OnlyTouches(p, q, {id}, if Failed(reply) then {id} else {}, sessionID, BindsSession(reply))
              && (BindsSession(reply) ==> sessionID in q.sessions && q.sessions[sessionID] == id)
    {
      if Failed(reply) {
        RestSettles(AfterBinding(p, id, sticky), id, cooledAt, start);
      }
    }

    lemma AcceptanceMarks(p: Pool, id: string, sticky: bool, reply: Reply, usageAt: nat, cooledAt: nat)
      requires id in p.tokens && cooledAt >= start && !Rejected(reply)
      requires sticky ==> sessionID in p.sessions && p.sessions[sessionID] == id
      ensures var q := AfterDelivery(AfterUsage(p, id, reply, usageAt), id, sticky, reply, cooledAt);
              && Marked(p, q, id, Some(reply))
              && OnlyTouches(p, q, {id}, if Failed(reply) then {id} else {}, sessionID, BindsSession(reply))
              && (BindsSession(reply) ==> sessionID in q.sessions && q.sessions[sessionID] == id)
    {
      UsageCounts(p, id, reply, usageAt);
      DeliverySettlesOrBinds(AfterUsage(p, id, reply, usageAt), id, sticky, reply, cooledAt);
    }

    /** A reply settles, removes or accounts its token, and only an accepted one binds the session. */
    lemma ReplyMarks(p: Pool, id: string, sticky: bool, reply: Reply, usageAt: nat, cooledAt: nat)
      requires id in p.tokens && cooledAt >= start
      requires sticky ==> sessionID in p.sessions && p.sessions[sessionID] == id
      ensures var q := AfterReply(p, id, sticky, Some(reply), usageAt, cooledAt);
              && Marked(p, q, id, Some(reply))
              && OnlyTouches(p, q, {id}, if Failed(reply) then {id} else {}, sessionID, BindsSession(reply))
              && (BindsSession(reply) ==> sessionID in q.sessions && q.sessions[sessionID] == id)
    {
      if Rejected(reply) {
        RejectionMarks(p, id, reply, usageAt, cooledAt);
      } else {
        AcceptanceMarks(p, id, sticky, reply, usageAt, cooledAt);
      }
    }

    /** The reply comes after steps that changed no window and at most dropped the session. */
    lemma ThenReply(p: Pool, q: Pool, r: Pool, id: string, reply: Reply, sticky: bool, usageAt: nat, cooledAt: nat)
      requires SameWindows(p, q, id) && id in p.tokens && cooledAt >= start
      requires OnlyTouches(p, q, {id}, {}, sessionID, false)
      requires sticky ==> sessionID in q.sessions && q.sessions[sessionID] == id
      requires r == AfterReply(q, id, sticky, Some(reply), usageAt, cooledAt)
      ensures Marked(p, r, id, Some(reply))
      ensures OnlyTouches(p, r, {id}, if Failed(reply) then {id} else {}, sessionID, BindsSession(reply))
      ensures BindsSession(reply) ==> sessionID in r.sessions && r.sessions[sessionID] == id
    {
      var failed := if Failed(reply) then {id} else {};
      ReplyMarks(q, id, sticky, reply, usageAt, cooledAt);
      TouchesCompose(p, q, r, {id}, {id}, {}, failed, sessionID, BindsSession(reply));
      assert {id} + {id} == {id} && {} + failed == failed;
    }

    /** Every turn of a request that runs alone. */
    lemma TurnIsClean(p: Pool, tried: set<string>, turn: Turn)
      requires CanPlay(p, tried, turn)
      ensures CleanTurn(p, AfterTurn(p, tried, turn), turn.Calls())
    {
      if turn.Turn? {
        var calls, reply, q := turn.calls, FinalReply(turn.calls), Reached(p, tried, turn);
        OneToken(calls, turn.id);
        ReachedKeeps(p, tried, turn);
        assert FailedTokens(calls) == if reply.Some? && Failed(reply.value) then {turn.id} else {};
        if reply.Some? {
          ThenReply(p, q, AfterTurn(p, tried, turn), turn.id, reply.value, turn.sticky, turn.usageAt, turn.cooledAt);
        }
      }
    }

    // -------------------------------------------------------------- what a request keeps

    /** Run alone, the request with these calls leaves the store like this. */
    ghost predicate LeavesClean(before: Pool, after: Pool, log: seq<Call>)
    {
      && OnlyTouches(before, after, UsedTokens(log), FailedTokens(log), sessionID, Binds(log))
      && (forall id :: id in UsedTokens(log) ==> Marked(before, after, id, LastReply(log, id)))
      && (Binds(log) ==> sessionID in after.sessions && after.sessions[sessionID] == log[|log| - 1].tokenID)
      && (log == [] ==> !AnyUsable(before, {}, start))
      && (StickyUsable(before, sessionID, {}, start) ==>
            log != [] && log[0].tokenID == before.sessions[sessionID])
    }

    /** The turns are those of a request that runs alone from one pool to the other. */
    ghost predicate Played(before: Pool, after: Pool, turns: seq<Turn>)
    {
      && 1 <= |turns| <= 2 && CanPlay(before, {}, turns[0])
      && var between := AfterTurn(before, {}, turns[0]);
         if |turns| == 1 then after == between
         else
           && turns[0].Turn? && turns[1].Turn? && CanPlay(between, {turns[0].id}, turns[1])
           && FinalReply(turns[0].calls).Some? && Rejected(FinalReply(turns[0].calls).value)
           && after == AfterTurn(between, {turns[0].id}, turns[1])
    }

    /** The first choice respects the session, and there is one if a token is usable when the request arrives. */
    lemma FirstChoice(p: Pool, turn: Turn)
      requires CanPlay(p, {}, turn)
      ensures turn.NoToken? ==> !AnyUsable(p, {}, start)
      ensures StickyUsable(p, sessionID, {}, start) ==> turn.Turn? && turn.id == p.sessions[sessionID]
    {
      if turn.NoToken? {
        NoneEarlier(p, {}, start, turn.pick.at);
      }
    }

    lemma OneIsClean(before: Pool, turn: Turn)
      requires CanPlay(before, {}, turn)
      ensures LeavesClean(before, AfterTurn(before, {}, turn), turn.Calls())
    {
      TurnIsClean(before, {}, turn);
      FirstChoice(before, turn);
      if turn.Turn? {
        OneToken(turn.calls, turn.id);
      }
    }

    /** The first token stays as it was left through the turn of the second. */
    lemma MarkStays(before: Pool, between: Pool, after: Pool, id: string, reply: Option<Reply>,
                    others: set<string>, failed: set<string>, bound: bool)
      requires Marked(before, between, id, reply) && id !in others
      requires OnlyTouches(between, after, others, failed, sessionID, bound)
      ensures Marked(before, after, id, reply)
    {
      if reply.Some? && Failed(reply.value) {
        SettledStays(between, after, id, others, failed, sessionID, bound, start);
      }
    }

    /** A token that the first turn did not use is marked by the second alone. */
    lemma MarkOfSecond(before: Pool, between: Pool, after: Pool, id: string, reply: Option<Reply>,
                       others: set<string>, failed: set<string>)
      requires Marked(between, after, id, reply) && id !in others
      requires OnlyTouches(before, between, others, failed, sessionID, false)
      ensures Marked(before, after, id, reply)
    {
    }

    lemma FailedByBoth(first: seq<Call>, more: seq<Call>)
      requires first != [] && more != [] && SameToken(first) && SameToken(more)
      requires first[0].tokenID != more[0].tokenID
      ensures UsedTokens(first + more) == {first[0].tokenID, more[0].tokenID}
      ensures FailedTokens(first + more) == FailedTokens(first) + FailedTokens(more)
      ensures LastReply(first + more, first[0].tokenID) == FinalReply(first)
      ensures LastReply(first + more, more[0].tokenID) == FinalReply(more) == FinalReply(first + more)
    {
      OneToken(first, first[0].tokenID);
      OneToken(more, more[0].tokenID);
      UsedByBoth(first, more);
      LastReplyOfBoth(first, more, first[0].tokenID);
      LastReplyOfBoth(first, more, more[0].tokenID);
    }

    lemma TwoAreClean(before: Pool, between: Pool, after: Pool, first: seq<Call>, more: seq<Call>)
      requires first != [] && more != [] && SameToken(first) && SameToken(more)
      requires first[0].tokenID != more[0].tokenID
      requires FinalReply(first).Some? && Rejected(FinalReply(first).value)
      requires CleanTurn(before, between, first) && CleanTurn(between, after, more)
      requires StickyUsable(before, sessionID, {}, start) ==> first[0].tokenID == before.sessions[sessionID]
      ensures LeavesClean(before, after, first + more)
    {
      var a, b, log := first[0].tokenID, more[0].tokenID, first + more;
      var failedA, failedB, bound := FailedTokens(first), FailedTokens(more), Binds(more);
      OneToken(first, a);
      OneToken(more, b);
      FailedByBoth(first, more);
      assert {a} + {b} == {a, b};
      TouchesCompose(before, between, after, {a}, {b}, failedA, failedB, sessionID, bound);
      MarkStays(before, between, after, a, FinalReply(first), {b}, failedB, bound);
      MarkOfSecond(before, between, after, b, FinalReply(more), {a}, failedA);
      assert log[0] == first[0] && log[|log| - 1].tokenID == b;
    }

    /** The turn from one pool to the next: the calls are of one token not tried before, and it is clean. */
    ghost predicate Turned(before: Pool, after: Pool, tried: set<string>, calls: seq<Call>)
    {
      FairAttempt(calls, tried) && CleanTurn(before, after, calls)
    }

    lemma TurnIsFair(p: Pool, q: Pool, tried: set<string>, turn: Turn)
      requires CanPlay(p, tried, turn) && q == AfterTurn(p, tried, turn)
      ensures Turned(p, q, tried, turn.Calls()) && (turn.Turn? ==> turn.calls != [] && turn.calls[0].tokenID == turn.id)
    {
      TurnIsClean(p, tried, turn);
    }

    lemma OnePlayed(before: Pool, after: Pool, turn: Turn)
      requires CanPlay(before, {}, turn) && after == AfterTurn(before, {}, turn)
      ensures Played(before, after, [turn]) && CallsOf([turn]) == turn.Calls()
    {
      CallsOfFew([turn]);
      assert turn.Calls() + [] == turn.Calls();
    }

    lemma TwoPlayed(before: Pool, between: Pool, after: Pool, first: Turn, next: Turn)
      requires first.Turn? && CanPlay(before, {}, first) && between == AfterTurn(before, {}, first)
      requires next.Turn? && CanPlay(between, {first.id}, next) && after == AfterTurn(between, {first.id}, next)
      requires FinalReply(first.calls).Some? && Rejected(FinalReply(first.calls).value)
      ensures Played(before, after, [first, next]) && CallsOf([first, next]) == first.calls + next.calls
    {
      CallsOfFew([first, next]);
    }

    /** Every request that runs alone: whatever it meets, in one turn or two, it leaves the store clean. */
    lemma RequestIsClean(before: Pool, after: Pool, turns: seq<Turn>)
      requires Played(before, after, turns)
      ensures LeavesClean(before, after, CallsOf(turns))
    {
      var first := turns[0];
      var between := AfterTurn(before, {}, first);
      CallsOfFew(turns);
      if |turns| == 1 {
        OneIsClean(before, first);
        assert CallsOf(turns) == first.Calls();
      } else {
        FirstChoice(before, first);
        TurnIsFair(before, between, {}, first);
        TurnIsFair(between, after, {first.id}, turns[1]);
        TwoAreClean(before, between, after, first.calls, turns[1].calls);
      }
    }
  }
}
