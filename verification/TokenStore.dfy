/** The store object: each method is one lock-protected step on the pool. */
module TokenStore {
  import opened Prelude
  import opened TokenPool

  class Store {
    var tokens: map<string, Token>
    var fileMod: map<Option<Path>, nat>
    var sessions: map<string, string>

    constructor ()
      ensures Valid() && Abs() == EMPTY_POOL
    {
      tokens, fileMod, sessions := map[], map[], map[];
    }

    function Abs(): Pool
      reads this
    {
      Pool(tokens, fileMod, sessions)
    }

    ghost predicate Valid()
      reads this
    {
      WellFiled(Abs())
    }

    lemma ServesWhenAvailable(now: nat)
      ensures forall t: Token :: Available(t, now) <==> Serves(t, now)
    {
      forall t: Token
        ensures Available(t, now) <==> Serves(t, now)
      {
        AvailableExactly(t, now);
      }
    }

    predicate ShouldReload(path: Path, modTime: nat)
      reads this
    {
      Some(path) !in fileMod || modTime > fileMod[Some(path)]
    }

    method NoteFileMod(path: Path, modTime: nat)
      modifies this`fileMod
      ensures fileMod == old(fileMod)[Some(path) := modTime]
    {
      fileMod := fileMod[Some(path) := modTime];
    }

    method UpsertToken(token: Token, modTime: nat) returns (added: bool, updated: bool)
      requires Valid()
      modifies this`tokens, this`fileMod
      ensures Valid() && Abs() == Upsert(old(Abs()), token, modTime)
      ensures added == (token.id !in old(tokens)) && updated == !added
      ensures fileMod == old(fileMod)[token.path := modTime] && sessions == old(sessions)
      ensures token.id in tokens && tokens == old(tokens)[token.id := tokens[token.id]]
      ensures added ==> tokens[token.id] == token
      ensures updated ==> Reloaded(old(tokens)[token.id], token, tokens[token.id])
    {
      if token.id !in tokens {
        tokens := tokens[token.id := token];
        fileMod := fileMod[token.path := modTime];
        return true, false;
      }
      var existing := tokens[token.id];
      OverwriteReloads(existing, token);
      existing := existing.(accessToken := token.accessToken);
      if token.userID != "" {
        existing := existing.(userID := token.userID);
      }
      if token.accountID != "" {
        existing := existing.(accountID := token.accountID);
      }
      if token.email != "" {
        existing := existing.(email := token.email);
      }
      if token.planType != "" {
        existing := existing.(planType := token.planType);
      }
      existing := existing.(refreshToken := token.refreshToken, path := token.path);
      if token.lastRefresh.Some? {
        existing := existing.(lastRefresh := token.lastRefresh);
      }
      existing := existing.(invalid := false, cooldownUntil := None);
      tokens := tokens[token.id := existing];
      fileMod := fileMod[token.path := modTime];
      return false, true;
    }

    method MarkInvalid(id: string)
      requires Valid()
      modifies this`tokens
      ensures Valid() && Abs() == TokenPool.MarkInvalid(old(Abs()), id)
      ensures fileMod == old(fileMod) && sessions == old(sessions)
      ensures id !in old(tokens) ==> tokens == old(tokens)
      ensures id in old(tokens) ==> tokens == old(tokens)[id := old(tokens)[id].(invalid := true)]
    {
      if id in tokens {
        tokens := tokens[id := tokens[id].(invalid := true)];
      }
    }

    method MarkCooldown(id: string, until: nat)
      requires Valid()
      modifies this`tokens
      ensures Valid() && Abs() == TokenPool.MarkCooldown(old(Abs()), id, until)
      ensures fileMod == old(fileMod) && sessions == old(sessions)
      ensures id !in old(tokens) ==> tokens == old(tokens)
      ensures id in old(tokens) ==> tokens == old(tokens)[id := old(tokens)[id].(cooldownUntil := Some(until))]
    {
      if id in tokens {
        tokens := tokens[id := tokens[id].(cooldownUntil := Some(until))];
      }
    }

    method UpdateUsage(id: string, fiveHour: Window, weekly: Window, now: nat)
      requires Valid()
      modifies this`tokens
      ensures Valid() && Abs() == TokenPool.UpdateUsage(old(Abs()), id, fiveHour, weekly, now)
      ensures fileMod == old(fileMod) && sessions == old(sessions)
      ensures id !in old(tokens) ==> tokens == old(tokens)
      ensures id in old(tokens) ==>
                tokens == old(tokens)[id := old(tokens)[id].(
                fiveHour := fiveHour, weekly := weekly, lastSync := Some(now))]
    {
      if id in tokens {
        tokens := tokens[id := tokens[id].(fiveHour := fiveHour, weekly := weekly, lastSync := Some(now))];
      }
    }

    method UpdateCredentials(id: string, accessToken: string, refreshToken: string, now: nat)
      requires Valid()
      modifies this`tokens
      ensures Valid() && Abs() == TokenPool.UpdateCredentials(old(Abs()), id, accessToken, refreshToken, now)
      ensures fileMod == old(fileMod) && sessions == old(sessions)
      ensures id !in old(tokens) ==> tokens == old(tokens)
      ensures id in old(tokens) ==>
                tokens == old(tokens)[id := old(tokens)[id].(
                accessToken := accessToken, refreshToken := refreshToken, lastRefresh := Some(now),
                invalid := false, cooldownUntil := None)]
    {
      if id in tokens {
        tokens := tokens[id := tokens[id].(
          accessToken := accessToken, refreshToken := refreshToken, lastRefresh := Some(now),
          invalid := false, cooldownUntil := None)];
      }
    }

    method RemoveToken(id: string) returns (removed: Option<Token>)
      requires Valid()
      modifies this
      ensures Valid() && Abs() == TokenPool.RemoveToken(old(Abs()), id)
      ensures removed == if id in old(tokens) then Some(old(tokens)[id]) else None
      ensures tokens == old(tokens) - {id}
      ensures removed == None ==> Abs() == old(Abs())
      ensures removed.Some? ==>
                && fileMod == (if removed.value.path.Some? then old(fileMod) - {removed.value.path} else old(fileMod))
                && forall s :: s in old(sessions) ==>
                     (s in sessions <==> old(sessions)[s] != id) && (s in sessions ==> sessions[s] == old(sessions)[s])
    {
      if id !in tokens {
        return None;
      }
      var token := tokens[id];
      tokens := tokens - {id};
      if token.path.Some? {
        fileMod := fileMod - {token.path};
      }
      ClearSessionsForToken(id);
      removed := Some(token);
    }

    method PruneMissingTokens(dir: string, existing: set<Path>) returns (removed: map<string, Token>)
      requires Valid()
      modifies this
      ensures Valid() && Abs() == TokenPool.PruneMissingTokens(old(Abs()), dir, existing)
      ensures removed.Keys == Missing(old(Abs()), dir, existing)
      ensures forall id :: id in removed ==> removed[id] == old(tokens)[id]
      ensures tokens == old(tokens) - removed.Keys
      ensures forall id :: id in removed <==>
                && id in old(tokens) && old(tokens)[id].path.Some?
                && old(tokens)[id].path.value.dir == dir && old(tokens)[id].path.value !in existing
    {
      removed := DropMissing(dir, existing);
      ghost var was, kept, keptMod := sessions, tokens, fileMod;
      var ids := removed.Keys;
      while ids != {}
        invariant ids <= removed.Keys
        invariant tokens == kept && fileMod == keptMod
        invariant sessions == WithoutSessionsOf(was, removed.Keys - ids)
        decreases ids
      {
        var id :| id in ids;
        ids := ids - {id};
        ClearSessionsForToken(id);
      }
    }

    /** The part of pruning done under the token lock. */
    method DropMissing(dir: string, existing: set<Path>) returns (removed: map<string, Token>)
      requires Valid()
      modifies this`tokens, this`fileMod
      ensures removed.Keys == Missing(old(Abs()), dir, existing)
      ensures forall id :: id in removed ==> removed[id] == old(tokens)[id]
      ensures tokens == old(tokens) - removed.Keys
      ensures fileMod == old(fileMod) - MissingPaths(old(Abs()), dir, existing)
    {
      removed := map[];
      ghost var p := Abs();
      ghost var paths: set<Option<Path>> := {};
      var left := tokens.Keys;
      while left != {}
        invariant left <= p.tokens.Keys
        invariant removed.Keys == Missing(p, dir, existing) - left
        invariant forall id :: id in removed ==> removed[id] == p.tokens[id] && p.tokens[id].path in paths
        invariant paths <= MissingPaths(p, dir, existing)
        invariant tokens == p.tokens - removed.Keys
        invariant fileMod == p.fileMod - paths
        decreases left
      {
        var id :| id in left;
        left := left - {id};
        var token := tokens[id];
        assert token == p.tokens[id];
        if token.path.Some? && token.path.value.dir == dir && token.path.value !in existing {
          assert id in Missing(p, dir, existing);
          removed := removed[id := token];
          tokens := tokens - {id};
          fileMod := fileMod - {token.path};
          paths := paths + {token.path};
        }
      }
      assert paths == MissingPaths(p, dir, existing);
    }

    method SetSession(sessionID: string, tokenID: string)
      modifies this`sessions
      ensures sessions == old(sessions)[sessionID := tokenID]
    {
      sessions := sessions[sessionID := tokenID];
    }

    method ClearSession(sessionID: string)
      modifies this`sessions
      ensures sessions == old(sessions) - {sessionID}
    {
      sessions := sessions - {sessionID};
    }

    method ClearSessionsForToken(tokenID: string)
      modifies this`sessions
      ensures sessions == WithoutSessionsOf(old(sessions), {tokenID})
    {
      ghost var was := sessions;
      var left := sessions.Keys;
      while left != {}
        invariant left <= was.Keys
        invariant forall s :: s in sessions <==> s in was && (s in left || was[s] != tokenID)
        invariant forall s :: s in sessions ==> sessions[s] == was[s]
        decreases left
      {
        var session :| session in left;
        left := left - {session};
        if sessions[session] == tokenID {
          sessions := sessions - {session};
        }
      }
    }

    /** The sticky token if it can be used, else the best of the others; an error if there is none. */
    method SelectToken(sessionID: string, tried: set<string>, now: nat) returns (selected: Option<(Token, bool)>)
      requires Valid()
      modifies this`sessions
      ensures Valid() && Abs() == WithoutDeadSession(old(Abs()), sessionID, tried, now)
      ensures StickyUsable(old(Abs()), sessionID, tried, now) ==>
                selected == Some((tokens[old(sessions)[sessionID]], true))
      ensures !StickyUsable(old(Abs()), sessionID, tried, now) ==>
                match selected
                case Some((token, sticky)) =>
                  && token.id in tokens && token == tokens[token.id] && !sticky
                  && CanHappen(old(Abs()), PickedRanked(token.id, tried, now))
                case None => CanHappen(old(Abs()), FoundNone(tried, now))
      ensures match selected
              case Some((token, sticky)) =>
                && token.id !in tried && Serves(token, now)
                && (sticky <==>
                      && sessionID != "" && sessionID in old(sessions) && old(sessions)[sessionID] !in tried
                      && old(sessions)[sessionID] in tokens && Serves(tokens[old(sessions)[sessionID]], now))
                && (sticky ==> token.id == old(sessions)[sessionID])
                && (!sticky ==>
                      forall id :: id in tokens && id !in tried && id != token.id && Serves(tokens[id], now) ==>
                        HasMostLeft(token, tokens[id]))
              case None => forall id :: id in tokens && id !in tried ==> !Serves(tokens[id], now)
      ensures tokens == old(tokens) && fileMod == old(fileMod)
      ensures sessions ==
                if sessionID != "" && sessionID in old(sessions) && old(sessions)[sessionID] !in tried
                   && !(old(sessions)[sessionID] in tokens && Serves(tokens[old(sessions)[sessionID]], now))
                then old(sessions) - {sessionID} else old(sessions)
    {
      ServesWhenAvailable(now);
      if sessionID != "" && sessionID in sessions && sessions[sessionID] !in tried {
        var tokenID := sessions[sessionID];
        if tokenID in tokens && Available(tokens[tokenID], now) {
          return Some((tokens[tokenID], true));
        }
        ClearSession(sessionID);
      }
      var candidates := AvailableCandidates(now, tried);
      if |candidates| == 0 {
        SessionsDoNotMatter(Abs(), old(Abs()), FoundNone(tried, now));
        return None;
      }
      var best := SelectBestCandidate(candidates);
      SessionsDoNotMatter(Abs(), old(Abs()), PickedRanked(best.token.id, tried, now));
      forall id | id in tokens && id !in tried && id != best.token.id && Serves(tokens[id], now)
        ensures HasMostLeft(best.token, tokens[id])
      {
        assert Usable(Abs(), id, tried, now);
      }
      selected := Some((best.token, false));
    }

    /** The candidates in an arbitrary order, each usable token once. */
    method AvailableCandidates(now: nat, tried: set<string>) returns (candidates: seq<Candidate>)
      requires Valid()
      ensures DistinctIDs(candidates)
      ensures forall c <- candidates :: Usable(Abs(), c.token.id, tried, now) && c == CandidateOf(tokens[c.token.id])
      ensures forall id :: Usable(Abs(), id, tried, now) ==> CandidateOf(tokens[id]) in candidates
    {
      candidates := [];
      var left := tokens.Keys;
      while left != {}
        invariant left <= tokens.Keys
        invariant DistinctIDs(candidates)
        invariant forall c <- candidates ::
                    Usable(Abs(), c.token.id, tried, now) && c == CandidateOf(tokens[c.token.id]) && c.token.id !in left
        invariant forall id :: id !in left && Usable(Abs(), id, tried, now) ==> CandidateOf(tokens[id]) in candidates
        decreases left
      {
        var id :| id in left;
        left := left - {id};
        var token := tokens[id];
        if token.id !in tried && Available(token, now) {
          candidates := candidates + [CandidateOf(token)];
        }
      }
    }

    method HasAvailableToken(tried: set<string>, now: nat) returns (found: bool)
      requires Valid()
      ensures found <==> exists id :: Usable(Abs(), id, tried, now)
      ensures found <==> exists id :: id in tokens && id !in tried && Serves(tokens[id], now)
    {
      ServesWhenAvailable(now);
      var left := tokens.Keys;
      while left != {}
        invariant left <= tokens.Keys
        invariant forall id :: id in tokens && id !in left ==> !Usable(Abs(), id, tried, now)
        decreases left
      {
        var id :| id in left;
        left := left - {id};
        if tokens[id].id !in tried && Available(tokens[id], now) {
          assert Usable(Abs(), id, tried, now);
          return true;
        }
      }
      found := false;
    }
  }
}
