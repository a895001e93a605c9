/**
 The two-attempt failover loops of the HTTP and WebSocket handlers. Upstream replies, refresh results,
 the clock and, when `interfering`, whatever other requests do to the store are nondeterministic.
 */
module Failover {
  import opened Prelude
  import opened TokenPool
  import opened TokenStore
  import opened Turns

  datatype Written = Passed(reply: Reply) | NoAvailableTokens | UpstreamFailed

  datatype Step = Finished | TryAgain | Deliver(token: Token, sticky: bool, reply: Reply)

  class Request {
    const client: Client

    /** Other requests run at the same time. */
    const interfering: bool

    var now: nat
    var log: seq<Call>
    var writes: seq<Written>
    var tried: set<string>
    var retryResp: Option<Reply>

    constructor (client: Client, interfering: bool)
      ensures this.client == client && this.interfering == interfering
      ensures Fresh() && now == client.start
    {
      this.client, this.interfering := client, interfering;
      now, log, writes, tried, retryResp := client.start, [], [], {}, None;
    }

    ghost predicate Fresh()
      reads this
    {
      log == [] && writes == [] && tried == {} && retryResp == None
    }

    /** Time passes, and other requests do what they like to the store. */
    method Wait(store: Store)
      requires store.Valid()
      modifies store, this`now
      ensures store.Valid() && now >= old(now)
      ensures !interfering ==> store.Abs() == old(store.Abs())
    {
      var later: nat :| later >= now;
      now := later;
      if interfering {
        var tokens: map<string, Token> := *;
        if forall id :: id in tokens ==> tokens[id].id == id {
          store.tokens := tokens;
        }
        store.fileMod := *;
        store.sessions := *;
      }
    }

    method Forward(token: Token) returns (reply: Option<Reply>)
      modifies this`log
      ensures log == old(log) + [Call(token.id, token.accessToken, reply)]
    {
      reply := *;
      log := log + [Call(token.id, token.accessToken, reply)];
    }

    method WriteResponse(w: Written)
      modifies this`writes
      ensures writes == old(writes) + [w]
    {
      writes := writes + [w];
    }

    // -------------------------------------------------------------- choosing and refreshing a token

    /** Alone: the sticky token if it can be used, else the best; nothing exactly if none can be used then. */
    method SelectProxyToken(store: Store) returns (selected: Option<(Token, bool)>, ghost pick: Pick)
      requires store.Valid()
      modifies store, this`now
      ensures store.Valid() && old(now) <= pick.at <= now
      ensures selected.Some? ==> selected.value.0.id !in tried
      ensures !interfering ==>
                match selected
                case Some((token, sticky)) =>
                  && client.Chosen(old(store.Abs()), tried, pick.at, token.id, sticky)
                  && store.Abs() == client.AfterPick(old(store.Abs()), tried, token.id, pick)
                  && token.id in store.tokens && token == store.tokens[token.id]
                case None =>
                  && CanHappen(old(store.Abs()), FoundNone(tried, pick.at))
                  && store.Abs() == WithoutDeadSession(old(store.Abs()), client.sessionID, tried, pick.at)
      ensures !interfering && StickyUsable(old(store.Abs()), client.sessionID, tried, old(now)) ==>
                selected.Some? && selected.value.1 && selected.value.0.id == old(store.sessions)[client.sessionID]
      ensures !interfering && AnyUsable(old(store.Abs()), tried, old(now)) ==> selected.Some?
    {
      Wait(store);
      ghost var at := now;
      selected := store.SelectToken(client.sessionID, tried, now);
      pick := Pick(at, NotRefreshed, at);
      if selected == None {
        if !interfering {
          NoneEarlier(old(store.Abs()), tried, old(now), at);
        }
        return;
      }
      var token;
      ghost var renewal, renewedAt;
      token, renewal, renewedAt := RefreshIfStale(store, selected.value.0);
      pick := Pick(at, renewal, renewedAt);
      selected := Some((token, selected.value.1));
    }

    /** New credentials for the selected token if it needs them; a failure is only logged. */
    method RefreshIfStale(store: Store, token: Token)
      returns (updated: Token, ghost renewal: RefreshResult, ghost at: nat)
      requires store.Valid()
      modifies store, this`now
      ensures store.Valid() && old(now) <= at <= now && updated.id == token.id
      ensures !interfering ==> store.Abs() == Renewed(old(store.Abs()), token.id, renewal, at)
      ensures !interfering && token.id in old(store.tokens) && token == old(store.tokens)[token.id] ==>
                token.id in store.tokens && updated == store.tokens[token.id]
    {
      updated := token;
      Wait(store);
      var refresh: RefreshResult := *;
      renewal, at := refresh, now;
      if refresh.NewCredentials? {
        store.UpdateCredentials(token.id, refresh.accessToken, refresh.refreshToken, now);
        Wait(store);
        if token.id in store.tokens {
          updated := store.tokens[token.id];
        }
      }
    }

    /** The request is worth sending again exactly when the refresh gave new credentials. */
    method RefreshTokenAfterUnauthorized(store: Store, token: Token)
      returns (refreshed: bool, updated: Token, ghost outcome: RefreshResult, ghost at: nat)
      requires store.Valid()
      modifies store, this`now
      ensures store.Valid() && old(now) <= at <= now && updated.id == token.id
      ensures refreshed <==> outcome.NewCredentials?
      ensures !interfering ==> store.Abs() == AfterRefresh(old(store.Abs()), token.id, outcome, at)
      ensures !interfering && refreshed && token.id in old(store.tokens) ==> updated == store.tokens[token.id]
      ensures !interfering && token.id in old(store.tokens) ==>
                && token.id in store.tokens && store.sessions == old(store.sessions)
                && var was, now := old(store.tokens)[token.id], store.tokens[token.id];
                   match outcome
                   case NotRefreshed => now == was
                   case NewCredentials(accessToken, refreshToken) =>
                     now == was.(accessToken := accessToken, refreshToken := refreshToken, lastRefresh := Some(at),
                                 invalid := false, cooldownUntil := None)
                   case RefreshFailed(permanent) =>
                     now == if permanent then was.(invalid := true) else was.(cooldownUntil := Some(at + 60))
    {
      updated := token;
      Wait(store);
      var refresh: RefreshResult := *;
      outcome, at := refresh, now;
      match refresh
      case RefreshFailed(permanent) =>
        if permanent {
          store.MarkInvalid(token.id);
        } else {
          store.MarkCooldown(token.id, now + COOLDOWN);
        }
        refreshed := false;
      case NotRefreshed =>
        refreshed := false;
      case NewCredentials(accessToken, refreshToken) =>
        store.UpdateCredentials(token.id, accessToken, refreshToken, now);
        Wait(store);
        if token.id in store.tokens {
          updated := store.tokens[token.id];
        }
        refreshed := true;
    }

    // -------------------------------------------------------------- taking a token out of service

    /** The token may be used again sixty seconds later, and no session is bound to it. */
    ghost predicate Rests(p: Pool, id: string, at: nat)
    {
      && (id in p.tokens ==> p.tokens[id].cooldownUntil == Some(at + 60))
      && forall s :: s in p.sessions ==> p.sessions[s] != id
    }

    /** There is another attempt only after the first, and alone exactly if another token is usable. */
    ghost predicate Retries(after: Pool, attempt: nat, again: bool)
      reads this
    {
      && (again ==> attempt != 1)
      && (!interfering ==> (again <==> attempt != 1 && AnyUsable(after, tried, now)))
    }

    method RetryWithAlternateToken(store: Store, tokenID: string, attempt: nat) returns (again: bool, ghost at: nat)
      requires store.Valid()
      modifies store, this`now, this`tried
      ensures store.Valid() && old(now) <= at <= now && tried == old(tried) + {tokenID}
      ensures !interfering ==> store.Abs() == Rested(old(store.Abs()), tokenID, at)
      ensures !interfering ==> Rests(store.Abs(), tokenID, at)
      ensures Retries(store.Abs(), attempt, again)
    {
      tried := tried + {tokenID};
      Wait(store);
      at := now;
      store.MarkCooldown(tokenID, now + COOLDOWN);
      Wait(store);
      store.ClearSessionsForToken(tokenID);
      again := OtherAvailable(store, attempt);
    }

    method RetryAfterUsageLimit(store: Store, tokenID: string, attempt: nat) returns (again: bool, ghost at: nat)
      requires store.Valid()
      modifies store, this`now, this`tried
      ensures store.Valid() && old(now) <= at <= now && tried == old(tried) + {tokenID}
      ensures !interfering ==> store.Abs() == Rested(old(store.Abs()), tokenID, at)
      ensures !interfering ==> Rests(store.Abs(), tokenID, at)
      ensures Retries(store.Abs(), attempt, again)
    {
      tried := tried + {tokenID};
      at := MarkTokenUsageLimit(store, tokenID);
      again := OtherAvailable(store, attempt);
    }

    method RetryAfterDeactivatedWorkspace(store: Store, tokenID: string, attempt: nat) returns (again: bool)
      requires store.Valid()
      modifies store, this`now, this`tried
      ensures store.Valid() && now >= old(now) && tried == old(tried) + {tokenID}
      ensures !interfering ==> store.Abs() == RemoveToken(old(store.Abs()), tokenID) && tokenID !in store.tokens
      ensures Retries(store.Abs(), attempt, again)
    {
      tried := tried + {tokenID};
      Wait(store);
      var removed := store.RemoveToken(tokenID);
      again := OtherAvailable(store, attempt);
    }

    method OtherAvailable(store: Store, attempt: nat) returns (again: bool)
      requires store.Valid()
      modifies store, this`now
      ensures store.Valid() && now >= old(now)
      ensures !interfering ==> store.Abs() == old(store.Abs())
      ensures Retries(store.Abs(), attempt, again)
    {
      if attempt == 1 {
        return false;
      }
      Wait(store);
      again := store.HasAvailableToken(tried, now);
    }

    method MarkTokenUsageLimit(store: Store, tokenID: string) returns (ghost at: nat)
      requires store.Valid()
      modifies store, this`now
      ensures store.Valid() && old(now) <= at <= now
      ensures !interfering ==> store.Abs() == Rested(old(store.Abs()), tokenID, at)
      ensures !interfering ==> Rests(store.Abs(), tokenID, at)
    {
      Wait(store);
      at := now;
      store.MarkCooldown(tokenID, now + COOLDOWN);
      Wait(store);
      store.ClearSessionsForToken(tokenID);
    }

    method BindProxySession(store: Store, token: Token, sticky: bool)
      requires store.Valid()
      modifies store, this`now
      ensures store.Valid() && now >= old(now)
      ensures !interfering ==> store.Abs() == client.AfterBinding(old(store.Abs()), token.id, sticky)
      ensures !interfering && client.sessionID != "" && !sticky ==>
                client.sessionID in store.sessions && store.sessions[client.sessionID] == token.id
    {
      if client.sessionID == "" || sticky {
        return;
      }
      Wait(store);
      store.SetSession(client.sessionID, token.id);
    }

    method ApplyUsageFromHeaders(store: Store, tokenID: string, reply: Reply) returns (ghost at: nat)
      requires store.Valid()
      modifies store, this`now
      ensures store.Valid() && old(now) <= at <= now
      ensures !interfering ==> store.Abs() == AfterUsage(old(store.Abs()), tokenID, reply, at)
    {
      at := now;
      if reply.fiveHour == None && reply.weekly == None {
        return;
      }
      Wait(store);
      at := now;
      if tokenID !in store.tokens {
        return;
      }
      var current := store.tokens[tokenID];
      var fiveHour, weekly := current.fiveHour, current.weekly;
      if reply.fiveHour.Some? {
        fiveHour := MergeUsage(current.fiveHour, reply.fiveHour.value);
      }
      if reply.weekly.Some? {
        weekly := MergeUsage(current.weekly, reply.weekly.value);
      }
      Wait(store);
      at := now;
      store.UpdateUsage(tokenID, fiveHour, weekly, now);
    }

    // -------------------------------------------------------------- one attempt

    /** Nothing was written exactly when the last reply had to be streamed to a client that cannot take a stream. */
    ghost predicate Answered()
      reads this
    {
      var last := FinalReply(log);
      if last.Some? && !client.Rejected(last.value) && client.Streaming(last.value) && !client.deliverable
      then writes == []
      else if log == [] then writes == [NoAvailableTokens]
      else if last == None then writes == [UpstreamFailed]
      else writes == [Passed(last.value)]
    }

    /** At most two turns, and a second token gets one only after the first was rejected. */
    ghost predicate FairUse(log: seq<Call>)
    {
      exists n: nat ::
        && n <= |log| && OneTurn(log[..n]) && OneTurn(log[n..])
        && (0 < n < |log| ==>
              && log[0].tokenID != log[n].tokenID
              && log[n - 1].reply.Some? && client.Rejected(log[n - 1].reply.value))
    }

    /** The first token was rejected, and its reply is kept. */
    ghost predicate AfterFirst()
      reads this
    {
      && log != [] && OneTurn(log) && writes == [] && tried == {log[0].tokenID}
      && retryResp.Some? && retryResp == FinalReply(log) && client.Rejected(retryResp.value)
    }

    /** Calls upstream, and once more with the new credentials exactly when a 401 led to a refresh. */
    method CallUpstream(store: Store, selected: Token)
      returns (token: Token, reply: Option<Reply>, ghost calls: seq<Call>,
               ghost outcome: Option<RefreshResult>, ghost at: nat)
      requires store.Valid()
      requires !interfering ==> selected.id in store.tokens && selected == store.tokens[selected.id]
      modifies store, this`now, this`log
      ensures store.Valid() && old(now) <= at <= now && token.id == selected.id
      ensures log == old(log) + calls && Called(calls, token.id, reply)
      ensures RetriedOnce(calls, outcome) && calls[0].accessToken == selected.accessToken
      ensures !interfering ==>
                && CallsFit(old(store.Abs()), token.id, calls, outcome)
                && store.Abs() == AfterCalls(old(store.Abs()), token.id, outcome, at)
    {
      token, outcome, at := selected, None, now;
      reply := Forward(token);
      calls := [Call(token.id, token.accessToken, reply)];
      if reply.Some? && reply.value.status == UNAUTHORIZED {
        var refreshed;
        ghost var result;
        refreshed, token, result, at := RefreshTokenAfterUnauthorized(store, token);
        outcome := Some(result);
        if refreshed {
          reply := Forward(token);
          calls := calls + [Call(token.id, token.accessToken, reply)];
        }
      }
    }

    /** Selects a token and calls upstream with it. */
    method SelectAndCall(store: Store) returns (used: Option<(Token, bool)>, reply: Option<Reply>, ghost turn: Turn)
      requires store.Valid() && now >= client.start
      modifies store, this`now, this`log
      ensures store.Valid() && now >= old(now) && turn.pick.at >= old(now)
      ensures log == old(log) + turn.Calls()
      ensures match used
              case None => turn.NoToken?
              case Some((token, sticky)) =>
                && turn.Turn? && turn.id == token.id && turn.sticky == sticky && token.id !in tried
                && Called(turn.calls, token.id, reply)
      ensures !interfering ==>
                && client.CanPlay(old(store.Abs()), tried, turn)
                && store.Abs() == (if turn.Turn? then client.Reached(old(store.Abs()), tried, turn)
                                   else client.AfterTurn(old(store.Abs()), tried, turn))
      ensures !interfering && AnyUsable(old(store.Abs()), tried, old(now)) ==> used.Some?
    {
      ghost var pick;
      used, pick := SelectProxyToken(store);
      if used == None {
        return None, None, NoToken(pick);
      }
      var (selected, sticky) := used.value;
      var token;
      ghost var calls, outcome, at;
      token, reply, calls, outcome, at := CallUpstream(store, selected);
      turn := Turn(pick, token.id, sticky, calls, outcome, at, now, now);
      used := Some((token, sticky));
    }

    /** Keeps the reply for later if there is another attempt, else passes it on; a limit reply tells usage too. */
    method TryAnother(store: Store, tokenID: string, reply: Reply, attempt: nat)
      returns (again: bool, ghost usageAt: nat, ghost cooledAt: nat)
      requires store.Valid() && client.Rejected(reply) && attempt < 2
      modifies store, this`now, this`writes, this`tried, this`retryResp
      ensures store.Valid() && old(now) <= usageAt && old(now) <= cooledAt && old(now) <= now
      ensures tried == old(tried) + {tokenID} && Retries(store.Abs(), attempt, again)
      ensures if again then writes == old(writes) && retryResp == Some(reply)
              else writes == old(writes) + [Passed(reply)] && retryResp == old(retryResp)
      ensures !interfering ==>
                store.Abs() == client.AfterRejection(old(store.Abs()), tokenID, reply, usageAt, cooledAt)
    {
      usageAt, cooledAt := now, now;
      if reply.status == UNAUTHORIZED {
        again, cooledAt := RetryWithAlternateToken(store, tokenID, attempt);
      } else if reply.deactivated {
        again := RetryAfterDeactivatedWorkspace(store, tokenID, attempt);
      } else {
        usageAt := ApplyUsageFromHeaders(store, tokenID, reply);
        again, cooledAt := RetryAfterUsageLimit(store, tokenID, attempt);
      }
      if again {
        retryResp := Some(reply);
      } else {
        WriteResponse(Passed(reply));
      }
    }

    /** A rejected reply ends the attempt; the usage of an accepted one is applied before it is delivered. */
    method Answer(store: Store, token: Token, sticky: bool, reply: Reply, attempt: nat)
      returns (step: Step, ghost usageAt: nat, ghost cooledAt: nat)
      requires store.Valid() && attempt < 2
      modifies store, this`now, this`writes, this`tried, this`retryResp
      ensures store.Valid() && old(now) <= usageAt && old(now) <= cooledAt && old(now) <= now
      ensures step.Deliver? <==> !client.Rejected(reply)
      ensures match step
              case Finished => writes == old(writes) + [Passed(reply)]
              case TryAgain => attempt == 0 && writes == old(writes) && retryResp == Some(reply)
              case Deliver(given, stuck, accepted) =>
                given == token && stuck == sticky && accepted == reply && writes == old(writes)
      ensures client.Rejected(reply) ==>
                tried == old(tried) + {token.id} && Retries(store.Abs(), attempt, step.TryAgain?)
      ensures !interfering ==>
                store.Abs() == client.AfterAnswer(old(store.Abs()), token.id, reply, usageAt, cooledAt)
    {
      if client.Rejected(reply) {
        var again;
        again, usageAt, cooledAt := TryAnother(store, token.id, reply, attempt);
        step := if again then TryAgain else Finished;
      } else {
        cooledAt := now;
        usageAt := ApplyUsageFromHeaders(store, token.id, reply);
        step := Deliver(token, sticky, reply);
      }
    }

    /** A rejected token is not tried again, and another one is exactly if the attempt is the first and there is one. */
    ghost predicate Settles(after: Pool, triedBefore: set<string>, calls: seq<Call>, attempt: nat, again: bool)
      reads this
    {
      FinalReply(calls).Some? && client.Rejected(FinalReply(calls).value) ==>
        tried == triedBefore + {calls[0].tokenID} && Retries(after, attempt, again)
    }

    /** The pool after an attempt whose accepted reply is still to be delivered. */
    ghost function Undelivered(p: Pool, tried: set<string>, turn: Turn, step: Step): Pool
      requires step.Deliver? ==> turn.Turn?
    {
      if step.Deliver? then AfterUsage(client.Reached(p, tried, turn), turn.id, step.reply, turn.usageAt)
      else client.AfterTurn(p, tried, turn)
    }

    /** What the attempt has done when an accepted reply is still to be delivered, or nothing is. */
    ghost predicate Stepped(before: Pool, after: Pool, triedBefore: set<string>, turn: Turn, attempt: nat, step: Step)
      reads this
    {
      && FairAttempt(turn.Calls(), triedBefore) && Settles(after, triedBefore, turn.Calls(), attempt, step.TryAgain?)
      && (match step
          case Finished => Answered()
          case TryAgain => attempt == 0 && turn.Turn? && AfterFirst()
          case Deliver(token, sticky, reply) =>
            && turn.Turn? && turn.id == token.id && turn.sticky == sticky && FinalReply(turn.calls) == Some(reply)
            && !client.Rejected(reply))
      && (!interfering ==>
            client.CanPlay(before, triedBefore, turn) && after == Undelivered(before, triedBefore, turn, step))
    }

    lemma AnswerSteps(before: Pool, after: Pool, triedBefore: set<string>, calls: seq<Call>, reply: Reply, turn: Turn,
                      attempt: nat, step: Step)
      requires turn.Turn? && turn.calls == calls && FinalReply(calls) == Some(reply) && FairAttempt(calls, triedBefore)
      requires step.Deliver? <==> !client.Rejected(reply)
      requires step.Deliver? ==> turn.id == step.token.id && turn.sticky == step.sticky && reply == step.reply
      requires step.Finished? ==> Answered()
      requires step.TryAgain? ==> attempt == 0 && AfterFirst()
      requires client.Rejected(reply) ==>
                 tried == triedBefore + {calls[0].tokenID} && Retries(after, attempt, step.TryAgain?)
      requires !interfering ==>
                 client.CanPlay(before, triedBefore, turn) && after == Undelivered(before, triedBefore, turn, step)
      ensures Stepped(before, after, triedBefore, turn, attempt, step)
    {
    }

    /** Nothing was called, or nothing came back. */
    lemma NoAnswerSteps(before: Pool, after: Pool, triedBefore: set<string>, turn: Turn, attempt: nat)
      requires FinalReply(turn.Calls()) == None && FairAttempt(turn.Calls(), triedBefore) && Answered()
      requires !interfering ==>
                 && client.CanPlay(before, triedBefore, turn)
                 && after == (if turn.Turn? then client.Reached(before, triedBefore, turn)
                              else client.AfterTurn(before, triedBefore, turn))
      ensures Stepped(before, after, triedBefore, turn, attempt, Finished)
    {
    }

    /** Completes the turn with the answer to its calls; `before` is the pool at the beginning of the attempt. */
    method AnswerTurn(store: Store, token: Token, sticky: bool, reply: Reply, attempt: nat,
                      ghost called: Turn, ghost before: Pool)
      returns (step: Step, ghost turn: Turn)
      requires store.Valid() && now >= client.start && attempt < 2 && token.id !in tried && writes == []
      requires called.Turn? && called.id == token.id && called.sticky == sticky
      requires Called(called.calls, token.id, Some(reply)) && FinalReply(log) == Some(reply)
      requires attempt == 0 ==> log == called.calls && tried == {}
      requires !interfering ==>
                 client.CanPlay(before, tried, called) && store.Abs() == client.Reached(before, tried, called)
      modifies store, this`now, this`writes, this`tried, this`retryResp
      ensures store.Valid() && now >= old(now) && turn.Turn? && turn.calls == called.calls && turn.pick == called.pick
      ensures Stepped(before, store.Abs(), old(tried), turn, attempt, step)
      ensures step.Deliver? ==> writes == []
    {
      ghost var usageAt, cooledAt;
      step, usageAt, cooledAt := Answer(store, token, sticky, reply, attempt);
      turn := called.(usageAt := usageAt, cooledAt := cooledAt);
      if !interfering {
        client.AnsweredTurn(before, old(tried), called, reply, usageAt, cooledAt);
      }
      AnswerSteps(before, store.Abs(), old(tried), called.calls, reply, turn, attempt, step);
    }

    method Attempt(store: Store, attempt: nat) returns (step: Step, ghost turn: Turn)
      requires store.Valid() && now >= client.start && attempt < 2
      requires if attempt == 0 then Fresh() else AfterFirst()
      modifies store, this`now, this`log, this`writes, this`tried, this`retryResp
      ensures store.Valid() && now >= old(now) && log == old(log) + turn.Calls()
      ensures Stepped(old(store.Abs()), store.Abs(), old(tried), turn, attempt, step)
      ensures step.Deliver? ==> turn.calls != [] && writes == []
      ensures !interfering && AnyUsable(old(store.Abs()), old(tried), old(now)) ==> turn.Turn?
    {
      var used, reply;
      used, reply, turn := SelectAndCall(store);
      if used == None || reply == None {
        WriteResponse(if used.Some? then UpstreamFailed
                      else if retryResp.Some? then Passed(retryResp.value)
                      else NoAvailableTokens);
        NoAnswerSteps(old(store.Abs()), store.Abs(), old(tried), turn, attempt);
        return Finished, turn;
      }
      var (token, sticky) := used.value;
      step, turn := AnswerTurn(store, token, sticky, reply.value, attempt, turn, old(store.Abs()));
    }

    // -------------------------------------------------------------- delivery

    /** What delivery of an accepted reply does; the token's limit may show only while the body arrives. */
    ghost predicate Delivered(before: Pool, after: Pool, token: Token, sticky: bool, reply: Reply, cooledAt: nat)
      reads this
    {
      && writes == (if client.Streaming(reply) && !client.deliverable then [] else [Passed(reply)])
      && (!interfering ==> after == client.AfterDelivery(before, token.id, sticky, reply, cooledAt))
    }

    method DeliverHTTP(store: Store, token: Token, sticky: bool, reply: Reply) returns (ghost cooledAt: nat)
      requires store.Valid() && !client.websocket && writes == [] && !client.Rejected(reply)
      modifies store, this`now, this`writes
      ensures store.Valid() && old(now) <= cooledAt <= now
      ensures Delivered(old(store.Abs()), store.Abs(), token, sticky, reply, cooledAt)
    {
      BindProxySession(store, token, sticky);
      if reply.stream {
        cooledAt := StreamResponse(store, token.id, reply);
        return;
      }
      cooledAt := now;
      WriteResponse(Passed(reply));
    }

    /** A refused upgrade is passed on and leaves the store alone. */
    method DeliverWebSocket(store: Store, token: Token, sticky: bool, reply: Reply) returns (ghost cooledAt: nat)
      requires store.Valid() && client.websocket && writes == [] && !client.Rejected(reply)
      modifies store, this`now, this`writes
      ensures store.Valid() && old(now) <= cooledAt <= now
      ensures Delivered(old(store.Abs()), store.Abs(), token, sticky, reply, cooledAt)
      ensures !interfering && reply.status != SWITCHING_PROTOCOLS ==> store.Abs() == old(store.Abs())
    {
      cooledAt := now;
      if reply.status != SWITCHING_PROTOCOLS {
        WriteResponse(Passed(reply));
        return;
      }
      BindProxySession(store, token, sticky);
      cooledAt := StreamResponse(store, token.id, reply);
    }

    /** Streams or tunnels the body past the usage capture, which marks the token at a limit. */
    method StreamResponse(store: Store, tokenID: string, reply: Reply) returns (ghost at: nat)
      requires store.Valid()
      modifies store, this`now, this`writes
      ensures store.Valid() && old(now) <= at <= now
      ensures writes == old(writes) + (if client.deliverable then [Passed(reply)] else [])
      ensures !interfering ==> store.Abs() == client.AfterStream(old(store.Abs()), tokenID, reply, at)
    {
      at := now;
      if !client.deliverable {
        return;
      }
      WriteResponse(Passed(reply));
      if reply.limitInStream {
        at := MarkTokenUsageLimit(store, tokenID);
      }
    }

    /** What one attempt promises: alone, its effect on the store is that of the turn. */
    ghost predicate Attempted(before: Pool, after: Pool, triedBefore: set<string>,
                              turn: Turn, attempt: nat, again: bool)
      reads this
    {
      && FairAttempt(turn.Calls(), triedBefore) && Settles(after, triedBefore, turn.Calls(), attempt, again)
      && (if again then attempt == 0 && turn.Turn? && AfterFirst() else Answered())
      && (!interfering ==>
            client.CanPlay(before, triedBefore, turn) && after == client.AfterTurn(before, triedBefore, turn))
    }

    /** The attempt up to delivery, said without the request's own state. */
    ghost predicate Accepted(before: Pool, between: Pool, triedBefore: set<string>, turn: Turn, step: Step)
    {
      && step.Deliver? && turn.Turn? && turn.id == step.token.id && turn.sticky == step.sticky
      && FinalReply(turn.calls) == Some(step.reply) && !client.Rejected(step.reply)
      && FairAttempt(turn.calls, triedBefore)
      && (!interfering ==>
            client.CanPlay(before, triedBefore, turn) && between == Undelivered(before, triedBefore, turn, step))
    }

    lemma StepAccepts(before: Pool, between: Pool, triedBefore: set<string>, turn: Turn, attempt: nat, step: Step)
      requires Stepped(before, between, triedBefore, turn, attempt, step) && step.Deliver?
      ensures Accepted(before, between, triedBefore, turn, step)
      ensures turn.Turn? && !client.Rejected(step.reply) && FinalReply(turn.calls) == Some(step.reply)
    {
    }

    /** The turn of an accepted reply is complete when it has been delivered. */
    lemma DeliveryCompletes(before: Pool, between: Pool, after: Pool, triedBefore: set<string>, was: Turn, step: Step,
                            cooledAt: nat, attempt: nat)
      requires step.Deliver? && cooledAt >= client.start && FinalReply(log) == Some(step.reply)
      requires Accepted(before, between, triedBefore, was, step)
      requires Delivered(between, after, step.token, step.sticky, step.reply, cooledAt)
      ensures Attempted(before, after, triedBefore, was.(cooledAt := cooledAt), attempt, false)
    {
      if !interfering {
        client.AnsweredTurn(before, triedBefore, was, step.reply, was.usageAt, cooledAt);
      }
    }

    lemma NothingDelivered(before: Pool, after: Pool, triedBefore: set<string>, turn: Turn, step: Step, attempt: nat)
      requires !step.Deliver? && Stepped(before, after, triedBefore, turn, attempt, step)
      ensures Attempted(before, after, triedBefore, turn, attempt, step.TryAgain?)
    {
    }

    method AttemptHTTP(store: Store, attempt: nat) returns (again: bool, ghost turn: Turn)
      requires store.Valid() && now >= client.start && attempt < 2 && !client.websocket
      requires if attempt == 0 then Fresh() else AfterFirst()
      modifies store, this`now, this`log, this`writes, this`tried, this`retryResp
      ensures store.Valid() && now >= old(now) && log == old(log) + turn.Calls()
      ensures Attempted(old(store.Abs()), store.Abs(), old(tried), turn, attempt, again)
      ensures !interfering && AnyUsable(old(store.Abs()), old(tried), old(now)) ==> turn.Turn?
    {
      var step;
      step, turn := Attempt(store, attempt);
      again := step.TryAgain?;
      if step.Deliver? {
        ghost var was, between := turn, store.Abs();
        StepAccepts(old(store.Abs()), between, old(tried), was, attempt, step);
        ghost var cooledAt := DeliverHTTP(store, step.token, step.sticky, step.reply);
        turn := turn.(cooledAt := cooledAt);
        DeliveryCompletes(old(store.Abs()), between, store.Abs(), old(tried), was, step, cooledAt, attempt);
      } else {
        NothingDelivered(old(store.Abs()), store.Abs(), old(tried), turn, step, attempt);
      }
    }

    method AttemptWebSocket(store: Store, attempt: nat) returns (again: bool, ghost turn: Turn)
      requires store.Valid() && now >= client.start && attempt < 2 && client.websocket
      requires if attempt == 0 then Fresh() else AfterFirst()
      modifies store, this`now, this`log, this`writes, this`tried, this`retryResp
      ensures store.Valid() && now >= old(now) && log == old(log) + turn.Calls()
      ensures Attempted(old(store.Abs()), store.Abs(), old(tried), turn, attempt, again)
      ensures !interfering && AnyUsable(old(store.Abs()), old(tried), old(now)) ==> turn.Turn?
    {
      var step;
      step, turn := Attempt(store, attempt);
      again := step.TryAgain?;
      if step.Deliver? {
        ghost var was, between := turn, store.Abs();
        StepAccepts(old(store.Abs()), between, old(tried), was, attempt, step);
        ghost var cooledAt := DeliverWebSocket(store, step.token, step.sticky, step.reply);
        turn := turn.(cooledAt := cooledAt);
        DeliveryCompletes(old(store.Abs()), between, store.Abs(), old(tried), was, step, cooledAt, attempt);
      } else {
        NothingDelivered(old(store.Abs()), store.Abs(), old(tried), turn, step, attempt);
      }
    }

    // -------------------------------------------------------------- the whole request

    /**
     What a finished request promises. Alone, there is a second turn exactly if the first reply was rejected and
     another token was usable when its token had been taken out of service.
     */
    ghost predicate Served(before: Pool, after: Pool, turns: seq<Turn>, decided: nat)
      reads this
    {
      && Answered() && FairUse(log) && |log| <= 4 && log == CallsOf(turns) && turns != []
      && (!interfering ==>
            && client.Played(before, after, turns) && client.LeavesClean(before, after, log)
            && var first := FinalReply(turns[0].Calls());
               (|turns| == 2 <==>
                  && turns[0].Turn? && first.Some? && client.Rejected(first.value)
                  && AnyUsable(client.AfterTurn(before, {}, turns[0]), {turns[0].id}, decided)))
    }

    /** The first attempt left its token out of service, and alone another one is usable. */
    ghost predicate MayRetry(before: Pool, between: Pool, first: Turn, decided: nat)
      reads this
    {
      && AfterFirst() && first.Turn? && log == first.calls
      && (!interfering ==>
            && client.CanPlay(before, {}, first) && between == client.AfterTurn(before, {}, first)
            && AnyUsable(between, {first.id}, decided))
    }

    lemma FairTogether(first: seq<Call>, more: seq<Call>, tries: set<string>)
      requires OneTurn(first) && (first != [] ==> first[0].tokenID in tries) && FairAttempt(more, tries)
      requires first != [] ==> FinalReply(first).Some? && client.Rejected(FinalReply(first).value)
      ensures FairUse(first + more) && |first + more| <= 4
    {
      var n, log := |first|, first + more;
      assert log[..n] == first && log[n..] == more;
    }

    lemma FirstRetries(before: Pool, after: Pool, turn: Turn)
      requires log == turn.Calls() && Attempted(before, after, {}, turn, 0, true)
      ensures MayRetry(before, after, turn, now)
    {
    }

    lemma FirstEnds(before: Pool, after: Pool, turn: Turn)
      requires log == turn.Calls() && Attempted(before, after, {}, turn, 0, false)
      ensures Served(before, after, [turn], now)
    {
      assert [] + log == log;
      FairTogether([], log, {});
      CallsOfFew([turn]);
      if !interfering {
        client.OnePlayed(before, after, turn);
        client.RequestIsClean(before, after, [turn]);
        NoSecond(after, turn);
      }
    }

    lemma NoSecond(after: Pool, turn: Turn)
      requires !interfering && Settles(after, {}, turn.Calls(), 0, false)
      requires turn.Turn? ==> turn.calls != [] && turn.calls[0].tokenID == turn.id
      ensures var first := FinalReply(turn.Calls());
              turn.Turn? && first.Some? && client.Rejected(first.value) ==> !AnyUsable(after, {turn.id}, now)
    {
      if turn.Turn? {
        assert {} + {turn.id} == {turn.id};
      }
    }

    lemma SecondEnds(before: Pool, between: Pool, after: Pool, first: Turn, turn: Turn, decided: nat)
      requires first.Turn? && first.calls != [] && OneTurn(first.calls) && log == first.calls + turn.Calls()
      requires FinalReply(first.calls).Some? && client.Rejected(FinalReply(first.calls).value)
      requires Attempted(between, after, {first.calls[0].tokenID}, turn, 1, false)
      requires !interfering ==>
                 && client.CanPlay(before, {}, first) && between == client.AfterTurn(before, {}, first) && turn.Turn?
                 && AnyUsable(between, {first.id}, decided)
      ensures Served(before, after, [first, turn], decided)
    {
      FairTogether(first.calls, turn.Calls(), {first.calls[0].tokenID});
      CallsOfFew([first, turn]);
      if !interfering {
        assert turn.calls != [] && log[|first.calls|] == turn.calls[0];
        client.TwoPlayed(before, between, after, first, turn);
        client.RequestIsClean(before, after, [first, turn]);
      }
    }

    // -------------------------------------------------------------- in terms of the replies

    /** The token cools down for at least sixty seconds or is gone, and no session is bound to it. */
    ghost predicate OutOfService(p: Pool, id: string)
    {
      && (id in p.tokens ==> p.tokens[id].cooldownUntil.Some? && p.tokens[id].cooldownUntil.value >= client.start + 60)
      && forall s :: s in p.sessions ==> p.sessions[s] != id
    }

    /** Another token was in service at that time. */
    ghost predicate OtherServes(p: Pool, id: string, at: nat)
    {
      exists other :: other != id && other in p.tokens && Serves(p.tokens[other], at)
    }

    /**
     Run alone, the request fails over on the replies that ask for it. A token is out of service if its last reply
     asks, or shows a limit late, while it is streamed. A second token is called exactly if the last reply to
     the first asks and another token is in service; no call follows a reply that does not ask. The session is
     bound to the last token exactly if its reply binds, and otherwise no session is bound anew.
     */
    ghost predicate FailsOver(before: Pool, after: Pool, decided: nat,
                              asks: Reply -> bool, late: Reply -> bool, binds: Reply -> bool)
      reads this
    {
      var last := FinalReply(log);
      && (forall id :: id in UsedTokens(log) && LastReply(log, id).Some? ==>
            var reply := LastReply(log, id).value;
            && (asks(reply) || late(reply) ==> OutOfService(after, id))
            && (id !in after.tokens <==> reply.status != 401 && reply.deactivated))
      && (log != [] ==>
            var first := LastReply(log, log[0].tokenID);
            !SameToken(log) <==> first.Some? && asks(first.value) && OtherServes(before, log[0].tokenID, decided))
      && (forall i :: 0 <= i < |log| - 1 ==> log[i].reply.Some? && asks(log[i].reply.value))
      && (last.Some? && binds(last.value) ==>
            client.sessionID in after.sessions && after.sessions[client.sessionID] == log[|log| - 1].tokenID)
      && (forall s :: s in after.sessions ==>
            || (s in before.sessions && after.sessions[s] == before.sessions[s])
            || (s == client.sessionID && last.Some? && binds(last.value)))
    }

    lemma OthersServe(before: Pool, between: Pool, id: string, at: nat, failed: set<string>, bound: bool)
      requires OnlyTouches(before, between, {id}, failed, client.sessionID, bound)
      ensures AnyUsable(between, {id}, at) <==> OtherServes(before, id, at)
    {
      forall other | other in between.tokens && other != id
        ensures Usable(between, other, {id}, at) <==> Serves(before.tokens[other], at)
      {
        AvailableExactly(before.tokens[other], at);
      }
      if other :| Usable(between, other, {id}, at) {
        assert other in before.tokens && Serves(before.tokens[other], at);
      }
      if other :| other != id && other in before.tokens && Serves(before.tokens[other], at) {
        assert Usable(between, other, {id}, at);
      }
    }

    /** Every call but the last got a reply that asks for another token. */
    lemma AllButLastAsk(log: seq<Call>)
      requires FairUse(log)
      ensures forall i :: 0 <= i < |log| - 1 ==> log[i].reply.Some? && client.Rejected(log[i].reply.value)
    {
      var n: nat :| n <= |log| && OneTurn(log[..n]) && OneTurn(log[n..])
                    && (0 < n < |log| ==> log[n - 1].reply.Some? && client.Rejected(log[n - 1].reply.value));
      forall i | 0 <= i < |log| - 1
        ensures log[i].reply.Some? && client.Rejected(log[i].reply.value)
      {
        if i < n - 1 {
          assert log[..n][i] == log[i] && i == 0;
        } else if i >= n {
          assert log[n..][i - n] == log[i] && i == n;
        }
      }
    }

    /** A second token shows in the calls. */
    lemma TokensOfBoth(first: seq<Call>, more: seq<Call>)
      requires first != [] && SameToken(first) && SameToken(more)
      requires more != [] ==> more[0].tokenID != first[0].tokenID
      ensures !SameToken(first + more) <==> more != []
      ensures LastReply(first + more, first[0].tokenID) == FinalReply(first)
    {
      OneToken(first, first[0].tokenID);
      if more == [] {
        assert first + more == first;
      } else {
        OneToken(more, more[0].tokenID);
        LastReplyOfBoth(first, more, first[0].tokenID);
        assert (first + more)[|first|] == more[0];
      }
    }

    lemma FirstTurnOf(turns: seq<Turn>, before: Pool, after: Pool)
      requires client.Played(before, after, turns) && CallsOf(turns) != []
      ensures turns[0].Turn? && turns[0].calls != [] && turns[0].calls[0].tokenID == turns[0].id
      ensures SameToken(turns[0].calls)
      ensures client.CleanTurn(before, client.AfterTurn(before, {}, turns[0]), turns[0].calls)
      ensures !SameToken(CallsOf(turns)) <==> |turns| == 2
      ensures LastReply(CallsOf(turns), turns[0].id) == FinalReply(turns[0].calls)
      ensures CallsOf(turns)[0].tokenID == turns[0].id
    {
      CallsOfFew(turns);
      var between := client.AfterTurn(before, {}, turns[0]);
      client.TurnIsFair(before, between, {}, turns[0]);
      if |turns| == 2 {
        client.TurnIsFair(between, after, {turns[0].id}, turns[1]);
        TokensOfBoth(turns[0].calls, turns[1].calls);
      } else {
        TokensOfBoth(turns[0].calls, []);
      }
    }

    lemma SecondExactly(before: Pool, between: Pool, id: string, calls: seq<Call>, decided: nat)
      requires calls != [] && SameToken(calls) && calls[0].tokenID == id
      requires client.CleanTurn(before, between, calls)
      ensures AnyUsable(between, {id}, decided) <==> OtherServes(before, id, decided)
    {
      OneToken(calls, id);
      OthersServe(before, between, id, decided, client.FailedTokens(calls), client.Binds(calls));
    }

    lemma MarksMean(before: Pool, after: Pool, asks: Reply -> bool, late: Reply -> bool)
      requires client.LeavesClean(before, after, log)
      requires forall r: Reply :: asks(r) || late(r) <==> client.Failed(r)
      ensures forall id :: id in UsedTokens(log) && LastReply(log, id).Some? ==>
                var reply := LastReply(log, id).value;
                && (asks(reply) || late(reply) ==> OutOfService(after, id))
                && (id !in after.tokens <==> reply.status != 401 && reply.deactivated)
    {
      forall id | id in UsedTokens(log) && LastReply(log, id).Some?
        ensures asks(LastReply(log, id).value) || late(LastReply(log, id).value) ==> OutOfService(after, id)
        ensures id !in after.tokens <==> LastReply(log, id).value.status != 401 && LastReply(log, id).value.deactivated
      {
        assert client.Marked(before, after, id, LastReply(log, id));
      }
    }

    lemma SecondToken(before: Pool, after: Pool, turns: seq<Turn>, decided: nat)
      requires !interfering && Served(before, after, turns, decided) && log != []
      ensures var first := LastReply(log, log[0].tokenID);
              !SameToken(log) <==>
                first.Some? && client.Rejected(first.value) && OtherServes(before, log[0].tokenID, decided)
    {
      FirstTurnOf(turns, before, after);
      SecondExactly(before, client.AfterTurn(before, {}, turns[0]), turns[0].id, turns[0].calls, decided);
    }

    lemma ServedFailsOver(before: Pool, after: Pool, turns: seq<Turn>, decided: nat,
                          asks: Reply -> bool, late: Reply -> bool, binds: Reply -> bool)
      requires !interfering && Served(before, after, turns, decided)
      requires forall r: Reply :: asks(r) <==> client.Rejected(r)
      requires forall r: Reply :: asks(r) || late(r) <==> client.Failed(r)
      requires forall r: Reply :: binds(r) <==> client.BindsSession(r)
      ensures FailsOver(before, after, decided, asks, late, binds)
    {
      AllButLastAsk(log);
      if log != [] {
        SecondToken(before, after, turns, decided);
      }
      MarksMean(before, after, asks, late);
    }

    lemma HTTPServed(before: Pool, after: Pool, turns: seq<Turn>, decided: nat)
      requires Served(before, after, turns, decided) && !client.websocket
      ensures var last := FinalReply(log);
              writes == if log == [] then [NoAvailableTokens]
                        else if last == None then [UpstreamFailed]
                        else if !client.deliverable && last.value.stream
                                && last.value.status != 401 && !last.value.deactivated then []
                        else [Passed(last.value)]
      ensures !interfering ==>
                FailsOver(before, after, decided,
                          (r: Reply) => r.status == 401 || r.deactivated || (r.limit && !r.stream),
                          (r: Reply) => client.deliverable && r.stream && r.limitInStream,
                          (r: Reply) => client.sessionID != "" && r.status != 401 && !r.deactivated
                              && !(r.limit && !r.stream) && !(client.deliverable && r.stream && r.limitInStream))
    {
      client.HTTPReplies();
      if !interfering {
        ServedFailsOver(before, after, turns, decided,
                        (r: Reply) => r.status == 401 || r.deactivated || (r.limit && !r.stream),
                        (r: Reply) => client.deliverable && r.stream && r.limitInStream,
                        (r: Reply) => client.sessionID != "" && r.status != 401 && !r.deactivated
                            && !(r.limit && !r.stream) && !(client.deliverable && r.stream && r.limitInStream));
      }
    }

    lemma WebSocketServed(before: Pool, after: Pool, turns: seq<Turn>, decided: nat)
      requires Served(before, after, turns, decided) && client.websocket
      ensures var last := FinalReply(log);
              writes == if log == [] then [NoAvailableTokens]
                        else if last == None then [UpstreamFailed]
                        else if !client.deliverable && last.value.status == 101
                                && !last.value.deactivated && !last.value.limit then []
                        else [Passed(last.value)]
      ensures !interfering ==>
                FailsOver(before, after, decided,
                          (r: Reply) => r.status == 401 || r.deactivated || r.limit,
                          (r: Reply) => client.deliverable && r.status == 101 && r.limitInStream,
                          (r: Reply) => client.sessionID != "" && r.status == 101 && !r.deactivated && !r.limit
                              && !(client.deliverable && r.limitInStream))
    {
      client.WebSocketReplies();
      if !interfering {
        ServedFailsOver(before, after, turns, decided,
                        (r: Reply) => r.status == 401 || r.deactivated || r.limit,
                        (r: Reply) => client.deliverable && r.status == 101 && r.limitInStream,
                        (r: Reply) => client.sessionID != "" && r.status == 101 && !r.deactivated && !r.limit
                            && !(client.deliverable && r.limitInStream));
      }
    }

    /**
     The HTTP handler. It writes exactly one response (none if a stream cannot be flushed), makes at most
     four calls with at most two tokens, and says that there are no tokens only if it called none.
     Alone, it plays one or two turns and leaves the store as they do: the usable token of its session comes
     first, every token that failed is settled, another session is lost only with a failed token, and its own
     is bound exactly to a token that answered.
     */
    method HandleProxy(store: Store) returns (ghost turns: seq<Turn>, ghost decided: nat)
      requires store.Valid() && Fresh() && now == client.start && !client.websocket
      modifies store, this`now, this`log, this`writes, this`tried, this`retryResp
      ensures store.Valid() && client.start <= decided <= now
      ensures Served(old(store.Abs()), store.Abs(), turns, decided)
      ensures var last := FinalReply(log);
              writes == if log == [] then [NoAvailableTokens]
                        else if last == None then [UpstreamFailed]
                        else if !client.deliverable && last.value.stream
                                && last.value.status != 401 && !last.value.deactivated then []
                        else [Passed(last.value)]
      ensures !interfering ==>
                FailsOver(old(store.Abs()), store.Abs(), decided,
                          (r: Reply) => r.status == 401 || r.deactivated || (r.limit && !r.stream),
                          (r: Reply) => client.deliverable && r.stream && r.limitInStream,
                          (r: Reply) => client.sessionID != "" && r.status != 401 && !r.deactivated
                              && !(r.limit && !r.stream) && !(client.deliverable && r.stream && r.limitInStream))
    {
      var attempt, again := 0, true;
      turns, decided := [], now;
      while again && attempt < 2
        invariant store.Valid() && now >= client.start && attempt <= 2 && (again ==> attempt < 2)
        invariant client.start <= decided <= now
        invariant again && attempt == 0 ==> Fresh() && turns == [] && store.Abs() == old(store.Abs())
        invariant again && attempt == 1 ==>
                    |turns| == 1 && decided == now && MayRetry(old(store.Abs()), store.Abs(), turns[0], decided)
        invariant !again ==> Served(old(store.Abs()), store.Abs(), turns, decided)
      {
        ghost var between := store.Abs();
        ghost var turn;
        again, turn := AttemptHTTP(store, attempt);
        turns := turns + [turn];
        if again {
          FirstRetries(between, store.Abs(), turn);
        } else if attempt == 0 {
          FirstEnds(between, store.Abs(), turn);
        } else {
          SecondEnds(old(store.Abs()), between, store.Abs(), turns[0], turn, decided);
        }
        decided := if attempt == 0 then now else decided;
        attempt := attempt + 1;
      }
      HTTPServed(old(store.Abs()), store.Abs(), turns, decided);
    }

    /** The WebSocket handler makes the same promises. */
    method HandleWebSocket(store: Store) returns (ghost turns: seq<Turn>, ghost decided: nat)
      requires store.Valid() && Fresh() && now == client.start && client.websocket
      modifies store, this`now, this`log, this`writes, this`tried, this`retryResp
      ensures store.Valid() && client.start <= decided <= now
      ensures Served(old(store.Abs()), store.Abs(), turns, decided)
      ensures var last := FinalReply(log);
              writes == if log == [] then [NoAvailableTokens]
                        else if last == None then [UpstreamFailed]
                        else if !client.deliverable && last.value.status == 101
                                && !last.value.deactivated && !last.value.limit then []
                        else [Passed(last.value)]
      ensures !interfering ==>
                FailsOver(old(store.Abs()), store.Abs(), decided,
                          (r: Reply) => r.status == 401 || r.deactivated || r.limit,
                          (r: Reply) => client.deliverable && r.status == 101 && r.limitInStream,
                          (r: Reply) => client.sessionID != "" && r.status == 101 && !r.deactivated && !r.limit
                              && !(client.deliverable && r.limitInStream))
    {
      var attempt, again := 0, true;
      turns, decided := [], now;
      while again && attempt < 2
        invariant store.Valid() && now >= client.start && attempt <= 2 && (again ==> attempt < 2)
        invariant client.start <= decided <= now
        invariant again && attempt == 0 ==> Fresh() && turns == [] && store.Abs() == old(store.Abs())
        invariant again && attempt == 1 ==>
                    |turns| == 1 && decided == now && MayRetry(old(store.Abs()), store.Abs(), turns[0], decided)
        invariant !again ==> Served(old(store.Abs()), store.Abs(), turns, decided)
      {
        ghost var between := store.Abs();
        ghost var turn;
        again, turn := AttemptWebSocket(store, attempt);
        turns := turns + [turn];
        if again {
          FirstRetries(between, store.Abs(), turn);
        } else if attempt == 0 {
          FirstEnds(between, store.Abs(), turn);
        } else {
          SecondEnds(old(store.Abs()), between, store.Abs(), turns[0], turn, decided);
        }
        decided := if attempt == 0 then now else decided;
        attempt := attempt + 1;
      }
      WebSocketServed(old(store.Abs()), store.Abs(), turns, decided);
    }
  }
}
