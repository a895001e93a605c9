/**
 The token pool as a value: what each lock-protected store operation does to it, which tokens are
 available, and how the best one is chosen. Times are in seconds; percentages are reals.
 */
module TokenPool {
  import opened Prelude

  const DEFAULT_LIMIT_POINTS := 100.0

  /** A quota window; `resetAfter` is in seconds and zero if not given. */
  datatype Window = Window(usedPercent: real, limitPercent: real, known: bool, resetAt: Option<nat>, resetAfter: int)

  const UNKNOWN_WINDOW := Window(0.0, 0.0, false, None, 0)

  /** Full if nothing is known; else what the limit leaves, and nothing exactly when it is used up. */
  function RemainingPoints(w: Window): (r: real)
    ensures r >= 0.0
    ensures !w.known || w.limitPercent <= 0.0 ==> r == 100.0
    ensures w.known && w.limitPercent > 0.0 ==> (r == 0.0 <==> w.usedPercent >= w.limitPercent)
    ensures w.known && w.limitPercent > 0.0 && w.usedPercent <= w.limitPercent ==> r + w.usedPercent == w.limitPercent
  {
    if !w.known || w.limitPercent <= 0.0 then DEFAULT_LIMIT_POINTS
    else
      var remaining := w.limitPercent - w.usedPercent;
      if remaining < 0.0 then 0.0 else remaining
  }

  /** A file path as its directory and the name in it; both are clean. No path is the empty path. */
  datatype Path = Path(dir: string, name: string)

  datatype Token = Token(
    id: string, path: Option<Path>, accessToken: string,
    userID: string, accountID: string, email: string, planType: string,
    refreshToken: string, lastRefresh: Option<nat>,
    invalid: bool, cooldownUntil: Option<nat>,
    fiveHour: Window, weekly: Window, lastSync: Option<nat>)

  predicate Available(t: Token, now: nat)
  {
    && !t.invalid
    && !(t.cooldownUntil.Some? && now < t.cooldownUntil.value)
    && !(t.fiveHour.known && RemainingPoints(t.fiveHour) <= 0.0)
    && !(t.weekly.known && RemainingPoints(t.weekly) <= 0.0)
  }

  /** The window is known and what its limit allows is used up; a window without a limit never is. */
  predicate UsedUp(w: Window)
  {
    w.known && w.limitPercent > 0.0 && w.usedPercent >= w.limitPercent
  }

  /** No invalid mark, no cooldown that lasts, and no window that is used up. */
  predicate Serves(t: Token, now: nat)
  {
    && !t.invalid && (t.cooldownUntil.Some? ==> t.cooldownUntil.value <= now)
    && !UsedUp(t.fiveHour) && !UsedUp(t.weekly)
  }

  lemma AvailableExactly(t: Token, now: nat)
    ensures Available(t, now) <==> Serves(t, now)
  {
  }

  /** Time alone never takes a token away. */
  lemma AvailabilityLasts(t: Token, now: nat, later: nat)
    requires Available(t, now) && now <= later
    ensures Available(t, later)
  {
  }

  // ---------------------------------------------------------------- ranking

  datatype Candidate = Candidate(token: Token, fiveHour: real, weekly: real)

  function CandidateOf(t: Token): Candidate
  {
    Candidate(t, RemainingPoints(t.fiveHour), RemainingPoints(t.weekly))
  }

  function Min(a: real, b: real): real
  {
    if a < b then a else b
  }

  /** Go's string order: by the first differing byte, a proper prefix first. */
  predicate Before(a: string, b: string)
  {
    if b == "" then false
    else if a == "" then true
    else if a[0] != b[0] then a[0] < b[0]
    else Before(a[1..], b[1..])
  }

  predicate Better(c: Candidate, d: Candidate)
  {
    var cBottleneck, dBottleneck := Min(c.fiveHour, c.weekly), Min(d.fiveHour, d.weekly);
    if cBottleneck != dBottleneck then cBottleneck > dBottleneck
    else if c.fiveHour != d.fiveHour then c.fiveHour > d.fiveHour
    else if c.weekly != d.weekly then c.weekly > d.weekly
    else Before(c.token.id, d.token.id)
  }

  lemma {:induction false} BeforeIsTotal(a: string, b: string)
    ensures a == b ==> !Before(a, b)
    ensures a != b ==> (Before(a, b) <==> !Before(b, a))
    decreases a
  {
    if a != "" && b != "" && a[0] == b[0] {
      BeforeIsTotal(a[1..], b[1..]);
      if a != b {
        assert a == [a[0]] + a[1..] && b == [b[0]] + b[1..];
      }
    }
  }

  lemma {:induction false} BeforeIsTransitive(a: string, b: string, c: string)
    requires Before(a, b) && Before(b, c)
    ensures Before(a, c)
    decreases a
  {
    if a != "" && a[0] == b[0] && b[0] == c[0] {
      BeforeIsTransitive(a[1..], b[1..], c[1..]);
    }
  }

  /** The ranking is a strict total order on candidates with distinct IDs. */
  lemma BetterIsTotal(c: Candidate, d: Candidate)
    ensures !Better(c, c)
    ensures c.token.id != d.token.id ==> (Better(c, d) <==> !Better(d, c))
  {
    BeforeIsTotal(c.token.id, d.token.id);
    BeforeIsTotal(c.token.id, c.token.id);
  }

  lemma BetterIsTransitive(c: Candidate, d: Candidate, e: Candidate)
    requires Better(c, d) && Better(d, e)
    ensures Better(c, e)
  {
    if Before(c.token.id, d.token.id) && Before(d.token.id, e.token.id) {
      BeforeIsTransitive(c.token.id, d.token.id, e.token.id);
    }
  }

  /** The two agree up to a position where one ends or has the smaller byte. */
  ghost predicate ComesFirst(a: string, b: string)
  {
    exists n: nat ::
      n <= |a| && n < |b| && a[..n] == b[..n] && (n == |a| || a[n] < b[n])
  }

  lemma {:induction false} BeforeMeansFirst(a: string, b: string)
    ensures Before(a, b) ==> ComesFirst(a, b)
    decreases a
  {
    if Before(a, b) {
      if a == "" {
        assert a[..0] == b[..0];
      } else if a[0] != b[0] {
        assert a[..0] == b[..0];
      } else {
        BeforeMeansFirst(a[1..], b[1..]);
        var n: nat :| n <= |a[1..]| && n < |b[1..]| && a[1..][..n] == b[1..][..n]
                      && (n == |a[1..]| || a[1..][n] < b[1..][n]);
        assert a[..n + 1] == [a[0]] + a[1..][..n] && b[..n + 1] == [b[0]] + b[1..][..n];
        assert a[..n + 1] == b[..n + 1] && (n + 1 == |a| || a[n + 1] < b[n + 1]);
      }
    }
  }

  /** The smaller share left of its two windows. */
  function Bottleneck(t: Token): real
  {
    if RemainingPoints(t.fiveHour) <= RemainingPoints(t.weekly) then RemainingPoints(t.fiveHour)
    else RemainingPoints(t.weekly)
  }

  /**
   The token has the most left: the largest smaller share, among equals the largest five-hour share, then the
   largest weekly share, and then the first ID.
   */
  ghost predicate HasMostLeft(t: Token, other: Token)
  {
    && Bottleneck(t) >= Bottleneck(other)
    && (Bottleneck(t) == Bottleneck(other) ==>
          && RemainingPoints(t.fiveHour) >= RemainingPoints(other.fiveHour)
          && (RemainingPoints(t.fiveHour) == RemainingPoints(other.fiveHour) ==>
                && RemainingPoints(t.weekly) >= RemainingPoints(other.weekly)
                && (RemainingPoints(t.weekly) == RemainingPoints(other.weekly) ==> ComesFirst(t.id, other.id))))
  }

  lemma BetterHasMostLeft(t: Token, other: Token)
    requires Better(CandidateOf(t), CandidateOf(other))
    ensures HasMostLeft(t, other)
  {
    BeforeMeansFirst(t.id, other.id);
  }

  predicate DistinctIDs(cs: seq<Candidate>)
  {
    forall i, j :: 0 <= i < j < |cs| ==> cs[i].token.id != cs[j].token.id
  }

  predicate IsBest(best: Candidate, cs: seq<Candidate>)
  {
    best in cs && forall c <- cs :: c == best || Better(best, c)
  }

  /** The loop over the candidates. */
  method SelectBestCandidate(candidates: seq<Candidate>) returns (best: Candidate)
    requires candidates != [] && DistinctIDs(candidates)
    ensures IsBest(best, candidates)
    ensures forall t, other :: CandidateOf(t) == best && CandidateOf(other) in candidates && other.id != t.id ==>
              HasMostLeft(t, other)
  {
    best := candidates[0];
    for i := 1 to |candidates|
      invariant best in candidates[..i]
      invariant forall c <- candidates[..i] :: c == best || Better(best, c)
    {
      var candidate := candidates[i];
      assert candidates[..i + 1] == candidates[..i] + [candidate];
      var was := best;
      BetterIsTotal(candidate, was);
      if Better(candidate, was) {
        best := candidate;
        forall c | c in candidates[..i]
          ensures Better(best, c)
        {
          if c != was {
            BetterIsTransitive(candidate, was, c);
          }
        }
      } else {
        assert candidate.token.id != was.token.id;
      }
    }
    assert candidates[..|candidates|] == candidates;
    forall t, other | CandidateOf(t) == best && CandidateOf(other) in candidates && other.id != t.id
      ensures HasMostLeft(t, other)
    {
      BetterHasMostLeft(t, other);
    }
  }

  /** The best candidate does not depend on the order in which the map is iterated. */
  lemma BestIsUnique(a: Candidate, cs: seq<Candidate>, b: Candidate, ds: seq<Candidate>)
    requires IsBest(a, cs) && IsBest(b, ds) && multiset(cs) == multiset(ds)
    ensures a == b
  {
    assert a in multiset(ds) && b in multiset(cs);
    if a != b {
      BetterIsTransitive(a, b, a);
      BetterIsTotal(a, a);
      assert false;
    }
  }

  // ---------------------------------------------------------------- the pool and its operations

  datatype Pool = Pool(tokens: map<string, Token>, fileMod: map<Option<Path>, nat>, sessions: map<string, string>)

  const EMPTY_POOL := Pool(map[], map[], map[])

  /** Every token is filed under its own ID. */
  ghost predicate WellFiled(p: Pool)
  {
    forall id :: id in p.tokens ==> p.tokens[id].id == id
  }

  function Overwrite(current: Token, token: Token): Token
  {
    current.(
      accessToken := token.accessToken,
      userID := if token.userID != "" then token.userID else current.userID,
      accountID := if token.accountID != "" then token.accountID else current.accountID,
      email := if token.email != "" then token.email else current.email,
      planType := if token.planType != "" then token.planType else current.planType,
      refreshToken := token.refreshToken,
      path := token.path,
      lastRefresh := if token.lastRefresh.Some? then token.lastRefresh else current.lastRefresh,
      invalid := false,
      cooldownUntil := None)
  }

  /** Credentials and path are replaced, known identity fields too; the marks go and the windows stay. */
  predicate Reloaded(was: Token, token: Token, now: Token)
  {
    && now.id == was.id && now.accessToken == token.accessToken && now.refreshToken == token.refreshToken
    && now.path == token.path && !now.invalid && now.cooldownUntil == None
    && now.userID == (if token.userID != "" then token.userID else was.userID)
    && now.accountID == (if token.accountID != "" then token.accountID else was.accountID)
    && now.email == (if token.email != "" then token.email else was.email)
    && now.planType == (if token.planType != "" then token.planType else was.planType)
    && now.lastRefresh == (if token.lastRefresh.Some? then token.lastRefresh else was.lastRefresh)
    && now.fiveHour == was.fiveHour && now.weekly == was.weekly && now.lastSync == was.lastSync
  }

  lemma OverwriteReloads(was: Token, token: Token)
    ensures Reloaded(was, token, Overwrite(was, token))
  {
  }

  function Upsert(p: Pool, token: Token, modTime: nat): Pool
  {
    p.(tokens := p.tokens[token.id := if token.id in p.tokens then Overwrite(p.tokens[token.id], token) else token],
       fileMod := p.fileMod[token.path := modTime])
  }

  /** Changes a token that is present; an unknown ID changes nothing. */
  function Change(p: Pool, id: string, f: Token -> Token): Pool
  {
    if id in p.tokens then p.(tokens := p.tokens[id := f(p.tokens[id])]) else p
  }

  function MarkInvalid(p: Pool, id: string): Pool
  {
    Change(p, id, (t: Token) => t.(invalid := true))
  }

  function MarkCooldown(p: Pool, id: string, until: nat): Pool
  {
    Change(p, id, (t: Token) => t.(cooldownUntil := Some(until)))
  }

  function UpdateUsage(p: Pool, id: string, fiveHour: Window, weekly: Window, now: nat): Pool
  {
    Change(p, id, (t: Token) => t.(fiveHour := fiveHour, weekly := weekly, lastSync := Some(now)))
  }

  function Refreshed(t: Token, accessToken: string, refreshToken: string, now: nat): Token
  {
    t.(accessToken := accessToken, refreshToken := refreshToken, lastRefresh := Some(now),
       invalid := false, cooldownUntil := None)
  }

  function UpdateCredentials(p: Pool, id: string, accessToken: string, refreshToken: string, now: nat): Pool
  {
    Change(p, id, (t: Token) => Refreshed(t, accessToken, refreshToken, now))
  }

  function WithoutSessionsOf(sessions: map<string, string>, ids: set<string>): map<string, string>
  {
    map s | s in sessions && sessions[s] !in ids :: sessions[s]
  }

  function ClearSessionsForToken(p: Pool, id: string): Pool
  {
    p.(sessions := WithoutSessionsOf(p.sessions, {id}))
  }

  function RemoveToken(p: Pool, id: string): Pool
  {
    if id !in p.tokens then p
    else
      var path := p.tokens[id].path;
      Pool(p.tokens - {id},
           if path.Some? then p.fileMod - {path} else p.fileMod,
           WithoutSessionsOf(p.sessions, {id}))
  }

  /** The tokens whose file lay in the directory and is no longer there. */
  function Missing(p: Pool, dir: string, existing: set<Path>): set<string>
  {
    set id | id in p.tokens && p.tokens[id].path.Some?
             && p.tokens[id].path.value.dir == dir && p.tokens[id].path.value !in existing
  }

  function MissingPaths(p: Pool, dir: string, existing: set<Path>): set<Option<Path>>
  {
    set id | id in Missing(p, dir, existing) :: p.tokens[id].path
  }

  function PruneMissingTokens(p: Pool, dir: string, existing: set<Path>): Pool
  {
    Pool(p.tokens - Missing(p, dir, existing),
         p.fileMod - MissingPaths(p, dir, existing),
         WithoutSessionsOf(p.sessions, Missing(p, dir, existing)))
  }

  // ---------------------------------------------------------------- every run of store operations

  /** One lock-protected step. Selecting is three of them: the sticky look, dropping a dead session, ranking. */
  datatype Event =
    | Upserted(token: Token, modTime: nat)
    | Invalidated(id: string)
    | Cooled(id: string, until: nat)
    | UsageSeen(id: string, fiveHour: Window, weekly: Window, now: nat)
    | CredentialsSet(id: string, accessToken: string, refreshToken: string, now: nat)
    | Removed(id: string)
    | Pruned(dir: string, existing: set<Path>)
    | Bound(session: string, id: string)
    | Unbound(session: string)
    | UnboundAll(id: string)
    | PickedSticky(session: string, id: string, tried: set<string>, now: nat)
    | PickedRanked(id: string, tried: set<string>, now: nat)
    | FoundNone(tried: set<string>, now: nat)

  predicate Usable(p: Pool, id: string, tried: set<string>, now: nat)
  {
    id in p.tokens && id !in tried && Available(p.tokens[id], now)
  }

  /** The session is bound to a token that can be used. */
  predicate StickyUsable(p: Pool, session: string, tried: set<string>, now: nat)
  {
    session != "" && session in p.sessions && Usable(p, p.sessions[session], tried, now)
  }

  /** A binding is dropped exactly when its token was not tried yet and cannot be used. */
  function WithoutDeadSession(p: Pool, session: string, tried: set<string>, now: nat): Pool
  {
    if session != "" && session in p.sessions && p.sessions[session] !in tried
       && !Usable(p, p.sessions[session], tried, now)
    then p.(sessions := p.sessions - {session})
    else p
  }

  /** What must be true of the pool at the moment of the step. */
  ghost predicate CanHappen(p: Pool, e: Event)
  {
    match e
    case PickedSticky(session, id, tried, now) => Usable(p, id, tried, now)
    case PickedRanked(id, tried, now) =>
      Usable(p, id, tried, now) &&
      forall other :: other != id && Usable(p, other, tried, now) ==>
        Better(CandidateOf(p.tokens[id]), CandidateOf(p.tokens[other]))
    case FoundNone(tried, now) => forall id :: !Usable(p, id, tried, now)
    case _ => true
  }

  /** Whether a step can happen does not depend on the sessions. */
  lemma SessionsDoNotMatter(p: Pool, q: Pool, e: Event)
    requires p.tokens == q.tokens && CanHappen(p, e)
    ensures CanHappen(q, e)
  {
    assert forall id, tried, now :: Usable(q, id, tried, now) ==> Usable(p, id, tried, now);
  }

  function Effect(p: Pool, e: Event): Pool
  {
    match e
    case Upserted(token, modTime) => Upsert(p, token, modTime)
    case Invalidated(id) => MarkInvalid(p, id)
    case Cooled(id, until) => MarkCooldown(p, id, until)
    case UsageSeen(id, fiveHour, weekly, now) => UpdateUsage(p, id, fiveHour, weekly, now)
    case CredentialsSet(id, accessToken, refreshToken, now) => UpdateCredentials(p, id, accessToken, refreshToken, now)
    case Removed(id) => RemoveToken(p, id)
    case Pruned(dir, existing) => PruneMissingTokens(p, dir, existing)
    case Bound(session, id) => p.(sessions := p.sessions[session := id])
    case Unbound(session) => p.(sessions := p.sessions - {session})
    case UnboundAll(id) => ClearSessionsForToken(p, id)
    case _ => p
  }

  ghost predicate Run(p: Pool, events: seq<Event>)
    decreases events
  {
    events == [] || (CanHappen(p, events[0]) && Run(Effect(p, events[0]), events[1..]))
  }

  /** The step lifts a cooldown of the token: a reload, new credentials, or an earlier deadline. */
  predicate Lifts(e: Event, id: string, until: nat)
  {
    match e
    case Upserted(token, _) => token.id == id
    case CredentialsSet(other, _, _, _) => other == id
    case Cooled(other, earlier) => other == id && earlier < until
    case _ => false
  }

  predicate Picks(e: Event, id: string, now: nat)
  {
    match e
    case PickedSticky(_, picked, _, at) => picked == id && at == now
    case PickedRanked(picked, _, at) => picked == id && at == now
    case _ => false
  }

  predicate CoolingOrGone(p: Pool, id: string, until: nat)
  {
    id in p.tokens ==> p.tokens[id].cooldownUntil.Some? && p.tokens[id].cooldownUntil.value >= until
  }

  lemma {:induction false} CoolingPersists(p: Pool, events: seq<Event>, id: string, until: nat, now: nat)
    requires Run(p, events) && CoolingOrGone(p, id, until)
    requires events != [] && Picks(events[|events| - 1], id, now)
    requires forall i :: 0 <= i < |events| ==> !Lifts(events[i], id, until)
    ensures now >= until
    decreases events
  {
    if |events| > 1 {
      var rest := events[1..];
      assert rest[|rest| - 1] == events[|events| - 1];
      CoolingPersists(Effect(p, events[0]), rest, id, until, now);
    }
  }

  /**
   In every interleaving of store operations: a token that was cooled down until some time is not
   selected before that time, unless a reload or a credential update cleared it, or a later call
   shortened it.
   */
  lemma CooledTokensWait(p: Pool, id: string, until: nat, events: seq<Event>, now: nat)
    requires Run(p, [Cooled(id, until)] + events)
    requires events != [] && Picks(events[|events| - 1], id, now)
    requires forall i :: 0 <= i < |events| ==> !Lifts(events[i], id, until)
    ensures now >= until
  {
    assert ([Cooled(id, until)] + events)[1..] == events;
    CoolingPersists(MarkCooldown(p, id, until), events, id, until, now);
  }

  /** The step lifts an invalid mark of the token: a reload or new credentials. */
  predicate Restores(e: Event, id: string)
  {
    (e.Upserted? && e.token.id == id) || (e.CredentialsSet? && e.id == id)
  }

  lemma {:induction false} MarkPersists(p: Pool, events: seq<Event>, id: string, now: nat)
    requires Run(p, events) && (id in p.tokens ==> p.tokens[id].invalid)
    requires events != [] && Picks(events[|events| - 1], id, now)
    ensures exists i :: 0 <= i < |events| && Restores(events[i], id)
    decreases events
  {
    if |events| > 1 && !Restores(events[0], id) {
      var rest := events[1..];
      assert rest[|rest| - 1] == events[|events| - 1];
      MarkPersists(Effect(p, events[0]), rest, id, now);
      var i :| 0 <= i < |rest| && Restores(rest[i], id);
      assert events[i + 1] == rest[i];
    }
  }

  /** In every interleaving, a token marked invalid is not selected until a reload or new credentials. */
  lemma InvalidTokensWait(p: Pool, id: string, events: seq<Event>, now: nat)
    requires Run(p, [Invalidated(id)] + events)
    requires events != [] && Picks(events[|events| - 1], id, now)
    ensures exists i :: 0 <= i < |events| && Restores(events[i], id)
  {
    assert ([Invalidated(id)] + events)[1..] == events;
    MarkPersists(MarkInvalid(p, id), events, id, now);
  }

  /** A reload of a present token, or new credentials, make it usable at once unless a window is used up. */
  lemma RestoredTokensServe(p: Pool, e: Event, id: string, tried: set<string>, now: nat)
    requires Restores(e, id) && id in p.tokens
    ensures Usable(Effect(p, e), id, tried, now) <==>
              id !in tried && !UsedUp(p.tokens[id].fiveHour) && !UsedUp(p.tokens[id].weekly)
  {
    AvailableExactly(Effect(p, e).tokens[id], now);
  }

  lemma StaysFiled(p: Pool, e: Event)
    requires WellFiled(p)
    ensures WellFiled(Effect(p, e))
  {
  }
}
