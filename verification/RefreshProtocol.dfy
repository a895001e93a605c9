/**
 Refreshing one token from any number of goroutines: each caller looks, waits for the token's lock,
 looks again, exchanges the refresh token, writes the file and updates the store. Every line of a
 call that touches shared state is a step of its own, and steps of different callers interleave freely.
 */
module RefreshProtocol {
  import opened Prelude

  const DEFAULT_REFRESH_WINDOW := 8 * 24 * 3600
  const DEFAULT_REFRESH_GAP := 30

  datatype Config = Config(interval: int, debounce: int)

  function Normalize(cfg: Config): (r: Config)
    ensures r.interval > 0 && r.debounce > 0
    ensures cfg.interval > 0 && cfg.debounce > 0 ==> r == cfg
  {
    Config(if cfg.interval <= 0 then DEFAULT_REFRESH_WINDOW else cfg.interval,
           if cfg.debounce <= 0 then DEFAULT_REFRESH_GAP else cfg.debounce)
  }

  datatype Cred = Cred(access: string, refresh: string, lastRefresh: Option<nat>)

  predicate NeedsRefresh(lastRefresh: Option<nat>, now: nat, interval: int)
  {
    lastRefresh.Some? && lastRefresh.value < now - interval
  }

  predicate RefreshedSince(before: Cred, after: Cred)
  {
    || (after.lastRefresh.Some? && (before.lastRefresh.None? || after.lastRefresh.value > before.lastRefresh.value))
    || after.access != before.access
  }

  /** The checks after the second look: send the refresh token, or return at once. */
  predicate Skips(call: Call, token: Cred, now: nat)
  {
    if call.ifStale then !NeedsRefresh(token.lastRefresh, now, call.cfg.interval)
    else token.lastRefresh.Some? && now - token.lastRefresh.value < call.cfg.debounce
  }

  // ---------------------------------------------------------------- the state

  type Thread = int

  /** As the server sees it; with `Lost` it has issued another refresh token, but no usable reply arrives. */
  datatype Outcome = Refused | Lost | Granted(access: string, refresh: string)

  datatype Exchange = Exchange(sent: string, outcome: Outcome, at: nat)

  datatype Result = Failed | Returned(refreshed: bool)

  /** One call, what it saw first, and how many updates the store had seen by then. */
  datatype Call = Call(ifStale: bool, cfg: Config, initial: Cred, since: nat)

  datatype PC =
    | Idle
    | Looked(call: Call)
    | Waiting(call: Call, lock: nat)
    | Locked(call: Call, lock: nat)
    | LookedAgain(call: Call, lock: nat, token: Cred)
    | Sending(call: Call, lock: nat, token: Cred)
    | Received(call: Call, lock: nat, sent: string, access: string, refresh: string)
    | Written(call: Call, lock: nat, access: string, refresh: string)
    | Leaving(call: Call, lock: nat, result: Result)
    | Done(since: nat, result: Result)

  /** Locks are objects: the store maps the token to one, and forgets it when the token is removed. */
  datatype World = World(
    token: Option<Cred>, lock: Option<nat>, locks: nat, owner: map<nat, Thread>,
    threads: map<Thread, PC>, exchanges: seq<Exchange>, issued: set<string>, updates: nat, now: nat)
  {
    function At(t: Thread): PC
    {
      if t in threads then threads[t] else Idle
    }

    function Goes(t: Thread, pc: PC): World
    {
      this.(threads := threads[t := pc])
    }
  }

  predicate HoldsLock(pc: PC)
  {
    pc.Locked? || pc.LookedAgain? || pc.Sending? || pc.Received? || pc.Written? || pc.Leaving?
  }

  // ---------------------------------------------------------------- the steps

  datatype Event =
    | Begin(t: Thread, ifStale: bool, cfg: Config)
    | GetLock(t: Thread)
    | Acquire(t: Thread)
    | LookAgain(t: Thread)
    | Check(t: Thread)
    | Exchanged(t: Thread, outcome: Outcome)
    | WroteFile(t: Thread, ok: bool)
    | Updated(t: Thread)
    | Unlock(t: Thread)
    | Tick(seconds: nat)
    | Removed
    | LockForgotten
    | Reloaded(cred: Cred)

  /** The authorization server returns no refresh token, the same one, or one it never issued before. */
  predicate Honest(sent: string, outcome: Outcome, issued: set<string>)
  {
    outcome.Granted? ==> outcome.refresh == "" || outcome.refresh == sent || outcome.refresh !in issued
  }

  predicate CanHappen(w: World, e: Event)
  {
    match e
    case Begin(t, _, _) => w.At(t).Idle? || w.At(t).Done?
    case GetLock(t) => w.At(t).Looked?
    case Acquire(t) => w.At(t).Waiting? && w.At(t).lock !in w.owner
    case LookAgain(t) => w.At(t).Locked?
    case Check(t) => w.At(t).LookedAgain?
    case Exchanged(t, outcome) => w.At(t).Sending? && Honest(w.At(t).token.refresh, outcome, w.issued)
    case WroteFile(t, _) => w.At(t).Received?
    case Updated(t) => w.At(t).Written?
    case Unlock(t) => w.At(t).Leaving?
    case _ => true
  }

  function Effect(w: World, e: Event): World
    requires CanHappen(w, e)
  {
    match e
    case Begin(t, ifStale, cfg) => AfterBegin(w, t, ifStale, Normalize(cfg))
    case GetLock(t) =>
      if w.lock.Some? then w.Goes(t, Waiting(w.At(t).call, w.lock.value))
      else w.(lock := Some(w.locks), locks := w.locks + 1).Goes(t, Waiting(w.At(t).call, w.locks))
    case Acquire(t) =>
      var pc := w.At(t);
      w.(owner := w.owner[pc.lock := t]).Goes(t, Locked(pc.call, pc.lock))
    case LookAgain(t) =>
      var pc := w.At(t);
      if w.token.None? then w.Goes(t, Leaving(pc.call, pc.lock, Failed))
      else if w.token.value.refresh == "" then w.Goes(t, Leaving(pc.call, pc.lock, Returned(false)))
      else w.Goes(t, LookedAgain(pc.call, pc.lock, w.token.value))
    case Check(t) =>
      var pc := w.At(t);
      if Skips(pc.call, pc.token, w.now) then
        w.Goes(t, Leaving(pc.call, pc.lock, Returned(RefreshedSince(pc.call.initial, pc.token))))
      else w.Goes(t, Sending(pc.call, pc.lock, pc.token))
    case Exchanged(t, outcome) => AfterExchange(w, t, w.At(t), outcome)
    case WroteFile(t, ok) =>
      var pc := w.At(t);
      if ok then w.Goes(t, Written(pc.call, pc.lock, pc.access, pc.refresh))
      else w.Goes(t, Leaving(pc.call, pc.lock, Failed))
    case Updated(t) =>
      var pc := w.At(t);
      w.(token := if w.token.Some? then Some(Cred(pc.access, pc.refresh, Some(w.now))) else None,
         updates := if w.token.Some? then w.updates + 1 else w.updates)
       .Goes(t, Leaving(pc.call, pc.lock, Returned(true)))
    case Unlock(t) =>
      var pc := w.At(t);
      w.(owner := w.owner - {pc.lock}).Goes(t, Done(pc.call.since, pc.result))
    case Tick(seconds) => w.(now := w.now + seconds)
    case Removed => w.(token := None)
    case LockForgotten => w.(lock := None)
    case Reloaded(cred) => w.(token := Some(cred), issued := w.issued + {cred.refresh})
  }

  function AfterBegin(w: World, t: Thread, ifStale: bool, cfg: Config): World
  {
    if w.token.None? then w.Goes(t, Done(w.updates, Failed))
    else if w.token.value.refresh == "" then w.Goes(t, Done(w.updates, Returned(false)))
    else if ifStale && !NeedsRefresh(w.token.value.lastRefresh, w.now, cfg.interval) then
      w.Goes(t, Done(w.updates, Returned(false)))
    else w.Goes(t, Looked(Call(ifStale, cfg, w.token.value, w.updates)))
  }

  function AfterExchange(w: World, t: Thread, pc: PC, outcome: Outcome): World
    requires pc.Sending?
  {
    var sent := pc.token.refresh;
    var v := w.(exchanges := w.exchanges + [Exchange(sent, outcome, w.now)]);
    match outcome
    case Granted(access, refresh) =>
      v.(issued := w.issued + {refresh})
       .Goes(t, Received(pc.call, pc.lock, sent, access, if refresh == "" then sent else refresh))
    case _ => v.Goes(t, Leaving(pc.call, pc.lock, Failed))
  }

  predicate Run(w: World, events: seq<Event>)
    decreases events
  {
    events == [] || (CanHappen(w, events[0]) && Run(Effect(w, events[0]), events[1..]))
  }

  function After(w: World, events: seq<Event>): World
    requires Run(w, events)
    decreases events
  {
    if events == [] then w else After(Effect(w, events[0]), events[1..])
  }

  lemma OneMore(w: World, e: Event, rest: seq<Event>)
    requires CanHappen(w, e) && Run(Effect(w, e), rest)
    ensures Run(w, [e] + rest) && After(w, [e] + rest) == After(Effect(w, e), rest)
  {
    assert ([e] + rest)[1..] == rest;
  }

  lemma {:induction false} RunsJoin(w: World, first: seq<Event>, second: seq<Event>)
    requires Run(w, first) && Run(After(w, first), second)
    ensures Run(w, first + second) && After(w, first + second) == After(After(w, first), second)
    decreases first
  {
    if first == [] {
      assert first + second == second;
    } else {
      RunsJoin(Effect(w, first[0]), first[1..], second);
      assert first + second == [first[0]] + (first[1..] + second);
      OneMore(w, first[0], first[1..] + second);
    }
  }

  // ---------------------------------------------------------------- what must hold

  /** The server has issued another refresh token for the one that was sent. */
  predicate Rotated(x: Exchange)
  {
    x.outcome.Lost? || (x.outcome.Granted? && x.outcome.refresh != "" && x.outcome.refresh != x.sent)
  }

  predicate NotSpent(exchanges: seq<Exchange>, refresh: string)
  {
    forall i :: 0 <= i < |exchanges| && Rotated(exchanges[i]) ==> exchanges[i].sent != refresh
  }

  /** At most one caller is past the lock. */
  predicate Exclusive(w: World)
  {
    forall t, u :: t in w.threads && u in w.threads && HoldsLock(w.threads[t]) && HoldsLock(w.threads[u]) ==> t == u
  }

  /** A refresh token that was exchanged for another is never sent again. */
  predicate NeverReplayed(exchanges: seq<Exchange>)
  {
    forall i, j :: 0 <= i < j < |exchanges| && Rotated(exchanges[i]) ==> exchanges[j].sent != exchanges[i].sent
  }

  /** Successful exchanges keep their distance. */
  predicate Spaced(exchanges: seq<Exchange>, gap: nat)
  {
    forall i, j :: 0 <= i < j < |exchanges| && exchanges[i].outcome.Granted? && exchanges[j].outcome.Granted? ==>
      exchanges[j].at >= exchanges[i].at + gap
  }

  /** A caller that is told so finds new credentials in the store. */
  predicate TrueMeansUpdated(w: World)
  {
    forall t :: t in w.threads && w.threads[t].Done? && w.threads[t].result == Returned(true) ==>
      w.threads[t].since < w.updates
  }

  predicate InitialWorld(w: World)
  {
    && w.token.Some? && w.threads == map[] && w.owner == map[] && w.exchanges == []
    && w.token.value.refresh in w.issued && w.lock == None
  }

  // ---------------------------------------------------------------- which steps are harmless

  predicate Engaged(pc: PC)
  {
    pc.Waiting? || HoldsLock(pc)
  }

  /** No caller is waiting for the lock or past it. */
  ghost predicate Unengaged(w: World)
  {
    forall t :: !Engaged(w.At(t))
  }

  ghost predicate KeepsLock(w: World, e: Event)
  {
    e.LockForgotten? ==> Unengaged(w)
  }

  /** No removal, no reload. */
  ghost predicate Quiet(w: World, e: Event)
  {
    KeepsLock(w, e) && !e.Removed? && !e.Reloaded?
  }

  /** The rotated token is lost: its reply did not arrive, or it cannot be written to the file. */
  predicate Spoils(w: World, e: Event)
  {
    match e
    case Exchanged(_, outcome) => outcome.Lost?
    case WroteFile(t, ok) => !ok && w.At(t).Received? && w.At(t).refresh != w.At(t).sent
    case _ => false
  }

  ghost predicate Careful(w: World, e: Event)
  {
    Quiet(w, e) && !Spoils(w, e)
  }

  predicate GrantedBy(exchanges: seq<Exchange>, time: int)
  {
    forall i :: 0 <= i < |exchanges| && exchanges[i].outcome.Granted? ==> exchanges[i].at <= time
  }

  /** A successful exchange is forgotten before the distance has passed. */
  predicate Rushes(w: World, e: Event, gap: nat)
  {
    match e
    case WroteFile(_, ok) => !ok && !GrantedBy(w.exchanges, w.now - gap)
    case _ => false
  }

  /** Every call asks for at least this distance, and none is forgotten too soon. */
  ghost predicate Unhurried(w: World, e: Event, gap: nat)
  {
    && Quiet(w, e) && !Rushes(w, e, gap)
    && (e.Begin? ==> Normalize(e.cfg).interval >= gap && Normalize(e.cfg).debounce >= gap)
  }

  ghost predicate LockKept(w: World, events: seq<Event>)
    requires Run(w, events)
    decreases events
  {
    events == [] || (KeepsLock(w, events[0]) && LockKept(Effect(w, events[0]), events[1..]))
  }

  ghost predicate CarefulRun(w: World, events: seq<Event>)
    requires Run(w, events)
    decreases events
  {
    events == [] || (Careful(w, events[0]) && CarefulRun(Effect(w, events[0]), events[1..]))
  }

  ghost predicate UnhurriedRun(w: World, events: seq<Event>, gap: nat)
    requires Run(w, events)
    decreases events
  {
    events == [] || (Unhurried(w, events[0], gap) && UnhurriedRun(Effect(w, events[0]), events[1..], gap))
  }

  // ---------------------------------------------------------------- the lock

  ghost predicate LockAt(w: World, t: Thread)
  {
    var pc := w.At(t);
    && (Engaged(pc) ==> w.lock == Some(pc.lock))
    && (HoldsLock(pc) ==> pc.lock in w.owner && w.owner[pc.lock] == t)
  }

  /** Engaged callers agree on the lock, its owner is past it, and new locks are new. */
  ghost predicate LockInv(w: World)
  {
    && (forall t :: LockAt(w, t))
    && (forall l :: l in w.owner ==> l < w.locks && HoldsLock(w.At(w.owner[l])) && w.At(w.owner[l]).lock == l)
    && (w.lock.Some? ==> w.lock.value < w.locks)
  }

  lemma OnlyHolder(w: World, t: Thread, u: Thread)
    requires LockInv(w) && HoldsLock(w.At(t)) && HoldsLock(w.At(u))
    ensures t == u
  {
    assert LockAt(w, t) && LockAt(w, u);
  }

  lemma LockIsExclusive(w: World)
    requires LockInv(w)
    ensures Exclusive(w)
  {
    forall t, u | t in w.threads && u in w.threads && HoldsLock(w.threads[t]) && HoldsLock(w.threads[u])
      ensures t == u
    {
      OnlyHolder(w, t, u);
    }
  }

  /** A step of one thread that neither takes nor leaves the lock. */
  lemma MoveKeepsLock(w: World, v: World, t: Thread)
    requires LockInv(w) && v.lock == w.lock && v.owner == w.owner && v.locks == w.locks
    requires forall u :: u != t ==> v.At(u) == w.At(u)
    requires HoldsLock(v.At(t)) == HoldsLock(w.At(t)) && Engaged(v.At(t)) == Engaged(w.At(t))
    requires Engaged(v.At(t)) ==> v.At(t).lock == w.At(t).lock
    ensures LockInv(v)
  {
    forall u
      ensures LockAt(v, u)
    {
      assert LockAt(w, u);
    }
  }

  lemma GetLockKeepsLock(w: World, t: Thread)
    requires LockInv(w) && CanHappen(w, GetLock(t))
    ensures LockInv(Effect(w, GetLock(t)))
  {
    var v := Effect(w, GetLock(t));
    forall u
      ensures LockAt(v, u)
    {
      assert LockAt(w, u);
    }
  }

  lemma AcquireKeepsLock(w: World, t: Thread)
    requires LockInv(w) && CanHappen(w, Acquire(t))
    ensures LockInv(Effect(w, Acquire(t)))
  {
    var v := Effect(w, Acquire(t));
    assert LockAt(w, t);
    forall u
      ensures LockAt(v, u)
    {
      assert LockAt(w, u);
    }
  }

  lemma UnlockKeepsLock(w: World, t: Thread)
    requires LockInv(w) && CanHappen(w, Unlock(t))
    ensures LockInv(Effect(w, Unlock(t)))
  {
    var v := Effect(w, Unlock(t));
    assert LockAt(w, t);
    forall u
      ensures LockAt(v, u)
    {
      assert LockAt(w, u);
    }
  }

  lemma StepKeepsLock(w: World, e: Event)
    requires LockInv(w) && CanHappen(w, e) && KeepsLock(w, e)
    ensures LockInv(Effect(w, e))
  {
    var v := Effect(w, e);
    match e {
      case GetLock(t) => GetLockKeepsLock(w, t);
      case Acquire(t) => AcquireKeepsLock(w, t);
      case Unlock(t) => UnlockKeepsLock(w, t);
      case Begin(t, _, _) => MoveKeepsLock(w, v, t);
      case LookAgain(t) => MoveKeepsLock(w, v, t);
      case Check(t) => MoveKeepsLock(w, v, t);
      case Exchanged(t, _) => MoveKeepsLock(w, v, t);
      case WroteFile(t, _) => MoveKeepsLock(w, v, t);
      case Updated(t) => MoveKeepsLock(w, v, t);
      case LockForgotten =>
        forall u
          ensures LockAt(v, u)
        {
          assert !Engaged(w.At(u));
        }
      case _ => MoveKeepsLock(w, v, 0);
    }
  }

  lemma {:induction false} RunKeepsLock(w: World, events: seq<Event>)
    requires LockInv(w) && Run(w, events) && LockKept(w, events)
    ensures LockInv(After(w, events))
    decreases events
  {
    if events != [] {
      StepKeepsLock(w, events[0]);
      RunKeepsLock(Effect(w, events[0]), events[1..]);
    }
  }

  // ---------------------------------------------------------------- when exclusion fails

  const CFG := Config(0, 0)
  const CRED := Cred("access", "refresh", None)

  function Arrival(t: Thread): seq<Event>
  {
    [Begin(t, false, CFG), GetLock(t), Acquire(t)]
  }

  /** From a world without the lock object, a caller walks straight past a new one. */
  lemma Arrives(w: World, t: Thread)
    requires w.token == Some(CRED) && w.lock == None && w.At(t) == Idle && w.locks !in w.owner
    ensures Run(w, Arrival(t)) && LockKept(w, Arrival(t))
    ensures var call := Call(false, Normalize(CFG), CRED, w.updates);
            After(w, Arrival(t)) ==
            w.(lock := Some(w.locks), locks := w.locks + 1, owner := w.owner[w.locks := t],
               threads := w.threads[t := Locked(call, w.locks)])
  {
    var w1 := Effect(w, Begin(t, false, CFG));
    var w2 := Effect(w1, GetLock(t));
    var w3 := Effect(w2, Acquire(t));
    OneMore(w2, Acquire(t), []);
    OneMore(w1, GetLock(t), [Acquire(t)]);
    OneMore(w, Begin(t, false, CFG), [GetLock(t), Acquire(t)]);
    NoForgetting(w, Arrival(t));
    var call := Call(false, Normalize(CFG), CRED, w.updates);
    var end := w.(lock := Some(w.locks), locks := w.locks + 1, owner := w.owner[w.locks := t],
                  threads := w.threads[t := Locked(call, w.locks)]);
    assert w3.threads == end.threads;
  }

  lemma {:induction false} NoForgetting(w: World, events: seq<Event>)
    requires Run(w, events) && forall i :: 0 <= i < |events| ==> !events[i].LockForgotten?
    ensures LockKept(w, events)
    decreases events
  {
    if events != [] {
      NoForgetting(Effect(w, events[0]), events[1..]);
    }
  }

  /** A caller past a forgotten lock, another that arrives after a reload: two are past the lock. */
  lemma ArrivalBreaksIn(w: World, t: Thread, u: Thread)
    requires LockInv(w) && HoldsLock(w.At(t)) && w.At(u) == Idle
    ensures var v, events := Effect(w, LockForgotten), [Reloaded(CRED)] + Arrival(u);
            Run(v, events) && LockKept(v, events) && !Exclusive(After(v, events))
  {
    var v := Effect(w, LockForgotten);
    Arrives(Effect(v, Reloaded(CRED)), u);
    OneMore(v, Reloaded(CRED), Arrival(u));
    var events := [Reloaded(CRED)] + Arrival(u);
    NoForgetting(v, events);
    var end := After(v, events);
    assert HoldsLock(end.threads[t]) && HoldsLock(end.threads[u]);
  }

  /** A caller that waits for a forgotten lock gets it as soon as it is free. */
  lemma WaiterBreaksIn(w: World, t: Thread, u: Thread)
    requires LockInv(w) && w.At(t).Waiting? && w.At(t).lock !in w.owner && w.At(u) == Idle
    ensures var v, events := Effect(w, LockForgotten), [Acquire(t)] + ([Reloaded(CRED)] + Arrival(u));
            Run(v, events) && LockKept(v, events) && !Exclusive(After(v, events))
  {
    assert LockAt(w, t);
    var v, x := Effect(w, LockForgotten), Effect(w, Acquire(t));
    AcquireKeepsLock(w, t);
    ArrivalBreaksIn(x, t, u);
    assert Effect(v, Acquire(t)) == Effect(x, LockForgotten);
    OneMore(v, Acquire(t), [Reloaded(CRED)] + Arrival(u));
    NoForgetting(v, [Acquire(t)] + ([Reloaded(CRED)] + Arrival(u)));
  }

  lemma SomeBound(s: set<int>) returns (bound: int)
    ensures forall x :: x in s ==> x < bound
    decreases |s|
  {
    if forall x: int :: x !in s {
      bound := 0;
    } else {
      var x: int :| x in s;
      var rest := s - {x};
      var b := SomeBound(rest);
      bound := if b > x then b else x + 1;
      assert forall y :: y in s ==> y == x || y in rest;
    }
  }

  lemma SomeBreaksIn(w: World) returns (events: seq<Event>)
    requires LockInv(w) && !Unengaged(w)
    ensures var v := Effect(w, LockForgotten);
            Run(v, events) && LockKept(v, events) && !Exclusive(After(v, events))
  {
    var t :| Engaged(w.At(t));
    var u := SomeBound(w.threads.Keys);
    assert w.At(u) == Idle;
    if HoldsLock(w.At(t)) {
      ArrivalBreaksIn(w, t, u);
      events := [Reloaded(CRED)] + Arrival(u);
    } else if w.At(t).lock in w.owner {
      ArrivalBreaksIn(w, w.owner[w.At(t).lock], u);
      events := [Reloaded(CRED)] + Arrival(u);
    } else {
      WaiterBreaksIn(w, t, u);
      events := [Acquire(t)] + ([Reloaded(CRED)] + Arrival(u));
    }
  }

  /**
   Exactly when the lock may be forgotten: if no caller waits for it or is past it, then however the
   run goes on, removals, reloads and failed writes included, one caller at a time is past the lock; and
   if some caller does, the run can go on to two.
   */
  lemma ForgettingIsSafeExactly(w: World)
    requires LockInv(w)
    ensures var v := Effect(w, LockForgotten);
            Unengaged(w) <==> forall events :: Run(v, events) && LockKept(v, events) ==> Exclusive(After(v, events))
  {
    var v := Effect(w, LockForgotten);
    if Unengaged(w) {
      StepKeepsLock(w, LockForgotten);
      forall events | Run(v, events) && LockKept(v, events)
        ensures Exclusive(After(v, events))
      {
        RunKeepsLock(v, events);
        LockIsExclusive(After(v, events));
      }
    } else {
      var events := SomeBreaksIn(w);
      assert Run(v, events) && LockKept(v, events) && !Exclusive(After(v, events));
    }
  }

  /** In every run in which the lock is forgotten only so, one caller at a time is past it. */
  lemma EveryRunIsExclusive(w: World, events: seq<Event>)
    requires InitialWorld(w) && Run(w, events) && LockKept(w, events)
    ensures LockInv(After(w, events)) && Exclusive(After(w, events))
  {
    RunKeepsLock(w, events);
    LockIsExclusive(After(w, events));
  }

  const START := World(Some(CRED), None, 0, map[], map[], [], {"refresh"}, 0, 0)
  const FORGET := [Removed, LockForgotten, Reloaded(CRED)]

  lemma Forgets(w: World)
    requires w.token == Some(CRED) && CRED.refresh in w.issued
    ensures Run(w, FORGET) && After(w, FORGET) == w.(lock := None)
  {
    var w1 := Effect(w, Removed);
    var w2 := Effect(w1, LockForgotten);
    OneMore(w2, Reloaded(CRED), []);
    OneMore(w1, LockForgotten, [Reloaded(CRED)]);
    OneMore(w, Removed, [LockForgotten, Reloaded(CRED)]);
    assert w.issued + {CRED.refresh} == w.issued;
  }

  /** The store does forget it at the wrong time: removing a token that is being refreshed, then a reload. */
  lemma RemovalLosesTheLock()
    ensures InitialWorld(START)
    ensures Run(START, Arrival(1) + (FORGET + Arrival(2)))
    ensures !Exclusive(After(START, Arrival(1) + (FORGET + Arrival(2))))
  {
    Arrives(START, 1);
    var w := After(START, Arrival(1));
    Forgets(w);
    Arrives(w.(lock := None), 2);
    RunsJoin(w, FORGET, Arrival(2));
    RunsJoin(START, Arrival(1), FORGET + Arrival(2));
    var end := After(START, Arrival(1) + (FORGET + Arrival(2)));
    assert HoldsLock(end.threads[1]) && HoldsLock(end.threads[2]);
  }

  // ---------------------------------------------------------------- what the lock protects

  predicate IsNormal(cfg: Config)
  {
    cfg.interval > 0 && cfg.debounce > 0
  }

  predicate Pending(pc: PC)
  {
    pc.Received? || pc.Written?
  }

  /** What a call knows of the store: how old its first look is, and past the lock the token itself. */
  predicate TokenAt(w: World, t: Thread)
    requires w.token.Some?
  {
    var pc, cred := w.At(t), w.token.value;
    && (pc.Looked? || Engaged(pc) ==>
          && IsNormal(pc.call.cfg) && pc.call.since <= w.updates
          && (pc.call.since == w.updates ==> pc.call.initial == cred))
    && (pc.LookedAgain? || pc.Sending? ==> pc.token == cred && cred.refresh != "")
    && (pc.Received? ==>
          && pc.sent == cred.refresh != ""
          && (pc.refresh != pc.sent ==> !NotSpent(w.exchanges, pc.sent)))
    && (pc.Sending? || pc.Received? ==> !Skips(pc.call, cred, w.now))
    && (pc.Leaving? && pc.result == Returned(true) ==> pc.call.since < w.updates)
    && (pc.Done? && pc.result == Returned(true) ==> pc.since < w.updates)
  }

  ghost predicate TokenInv(w: World)
  {
    w.token.Some? && LockInv(w) && forall t :: TokenAt(w, t)
  }

  lemma UpdateKeepsToken(w: World, t: Thread)
    requires TokenInv(w) && CanHappen(w, Updated(t))
    ensures TokenInv(Effect(w, Updated(t)))
  {
    var v := Effect(w, Updated(t));
    StepKeepsLock(w, Updated(t));
    forall u
      ensures TokenAt(v, u)
    {
      assert TokenAt(w, u);
      if u != t && HoldsLock(w.At(u)) {
        OnlyHolder(w, u, t);
      }
    }
  }

  lemma ExchangeKeepsToken(w: World, t: Thread, outcome: Outcome)
    requires TokenInv(w) && CanHappen(w, Exchanged(t, outcome))
    ensures TokenInv(Effect(w, Exchanged(t, outcome)))
  {
    var v := Effect(w, Exchanged(t, outcome));
    StepKeepsLock(w, Exchanged(t, outcome));
    assert TokenAt(w, t);
    assert v.exchanges[|w.exchanges|] == Exchange(w.At(t).token.refresh, outcome, w.now);
    forall u
      ensures TokenAt(v, u)
    {
      assert TokenAt(w, u);
      if u != t && HoldsLock(w.At(u)) {
        OnlyHolder(w, u, t);
      }
    }
  }

  /** A step of one thread that leaves the store and the server alone. */
  lemma MoveKeepsToken(w: World, v: World, t: Thread)
    requires TokenInv(w) && LockInv(v) && v.token == w.token && v.exchanges == w.exchanges
    requires v.now == w.now && v.updates == w.updates
    requires forall u :: u != t ==> v.At(u) == w.At(u)
    requires TokenAt(v, t)
    ensures TokenInv(v)
  {
    forall u
      ensures TokenAt(v, u)
    {
      assert TokenAt(w, u);
    }
  }

  lemma TickKeepsToken(w: World, seconds: nat)
    requires TokenInv(w)
    ensures TokenInv(Effect(w, Tick(seconds)))
  {
    var v := Effect(w, Tick(seconds));
    StepKeepsLock(w, Tick(seconds));
    forall u
      ensures TokenAt(v, u)
    {
      assert TokenAt(w, u);
    }
  }

  lemma BeginKeepsToken(w: World, t: Thread, ifStale: bool, cfg: Config)
    requires TokenInv(w) && CanHappen(w, Begin(t, ifStale, cfg))
    ensures TokenInv(Effect(w, Begin(t, ifStale, cfg)))
  {
    StepKeepsLock(w, Begin(t, ifStale, cfg));
    MoveKeepsToken(w, Effect(w, Begin(t, ifStale, cfg)), t);
  }

  lemma StepKeepsToken(w: World, e: Event)
    requires TokenInv(w) && CanHappen(w, e) && Quiet(w, e)
    ensures TokenInv(Effect(w, e))
  {
    if e.Updated? {
      UpdateKeepsToken(w, e.t);
    } else if e.Exchanged? {
      ExchangeKeepsToken(w, e.t, e.outcome);
    } else if e.Tick? {
      TickKeepsToken(w, e.seconds);
    } else if e.Begin? {
      BeginKeepsToken(w, e.t, e.ifStale, e.cfg);
    } else {
      StepKeepsLock(w, e);
      var t := if e.LockForgotten? then 0 else e.t;
      assert TokenAt(w, t);
      MoveKeepsToken(w, Effect(w, e), t);
    }
  }

  // ---------------------------------------------------------------- no replay

  /** The token on its way to the store is unspent, and so is the one in the store if none is on its way. */
  ghost predicate FreshInv(w: World)
  {
    && TokenInv(w) && NeverReplayed(w.exchanges) && w.token.value.refresh in w.issued
    && (forall i :: 0 <= i < |w.exchanges| ==> w.exchanges[i].sent in w.issued)
    && (forall t :: Pending(w.At(t)) ==> NotSpent(w.exchanges, w.At(t).refresh) && w.At(t).refresh in w.issued)
    && ((forall t :: !Pending(w.At(t))) ==> NotSpent(w.exchanges, w.token.value.refresh))
  }

  lemma NoOtherPending(w: World, t: Thread)
    requires LockInv(w) && HoldsLock(w.At(t)) && !Pending(w.At(t))
    ensures forall u :: !Pending(w.At(u))
  {
    forall u
      ensures !Pending(w.At(u))
    {
      if Pending(w.At(u)) {
        OnlyHolder(w, t, u);
      }
    }
  }

  lemma ExchangeKeepsFresh(w: World, t: Thread, outcome: Outcome)
    requires FreshInv(w) && CanHappen(w, Exchanged(t, outcome)) && !outcome.Lost?
    ensures FreshInv(Effect(w, Exchanged(t, outcome)))
  {
    var v := Effect(w, Exchanged(t, outcome));
    StepKeepsToken(w, Exchanged(t, outcome));
    NoOtherPending(w, t);
    assert TokenAt(w, t);
    forall u | u != t
      ensures !Pending(v.At(u))
    {
      assert !Pending(w.At(u)) && v.At(u) == w.At(u);
    }
    if outcome.Granted? {
      assert Pending(v.At(t));
    }
  }

  lemma WriteKeepsFresh(w: World, t: Thread, ok: bool)
    requires FreshInv(w) && CanHappen(w, WroteFile(t, ok)) && !Spoils(w, WroteFile(t, ok))
    ensures FreshInv(Effect(w, WroteFile(t, ok)))
  {
    var v := Effect(w, WroteFile(t, ok));
    StepKeepsToken(w, WroteFile(t, ok));
    assert TokenAt(w, t) && Pending(w.At(t));
    forall u | u != t
      ensures !Pending(v.At(u))
    {
      if Pending(w.At(u)) {
        OnlyHolder(w, t, u);
      }
    }
    if ok {
      assert Pending(v.At(t));
    }
  }

  lemma UpdateKeepsFresh(w: World, t: Thread)
    requires FreshInv(w) && CanHappen(w, Updated(t))
    ensures FreshInv(Effect(w, Updated(t)))
  {
    var v := Effect(w, Updated(t));
    StepKeepsToken(w, Updated(t));
    assert Pending(w.At(t));
    forall u | u != t
      ensures !Pending(v.At(u))
    {
      if Pending(w.At(u)) {
        OnlyHolder(w, t, u);
      }
    }
  }

  /** Every other step leaves the exchanges, the token and what is pending alone. */
  lemma SamePending(w: World, e: Event, t: Thread)
    requires CanHappen(w, e) && !e.Exchanged? && !e.WroteFile? && !e.Updated?
    ensures Pending(Effect(w, e).At(t)) == Pending(w.At(t))
    ensures Pending(w.At(t)) ==> Effect(w, e).At(t) == w.At(t)
  {
  }

  lemma StepKeepsFresh(w: World, e: Event)
    requires FreshInv(w) && CanHappen(w, e) && Careful(w, e)
    ensures FreshInv(Effect(w, e))
  {
    if e.Exchanged? {
      ExchangeKeepsFresh(w, e.t, e.outcome);
    } else if e.WroteFile? {
      WriteKeepsFresh(w, e.t, e.ok);
    } else if e.Updated? {
      UpdateKeepsFresh(w, e.t);
    } else {
      StepKeepsToken(w, e);
      forall t
        ensures Pending(Effect(w, e).At(t)) == Pending(w.At(t))
        ensures Pending(w.At(t)) ==> Effect(w, e).At(t) == w.At(t)
      {
        SamePending(w, e, t);
      }
    }
  }

  lemma {:induction false} RunKeepsFresh(w: World, events: seq<Event>)
    requires FreshInv(w) && Run(w, events) && CarefulRun(w, events)
    ensures FreshInv(After(w, events))
    decreases events
  {
    if events != [] {
      StepKeepsFresh(w, events[0]);
      RunKeepsFresh(Effect(w, events[0]), events[1..]);
    }
  }

  // ---------------------------------------------------------------- when a token is replayed

  /** A call that has failed to bring its token to the store is made once more, and sends the token. */
  function Again(t: Thread, call: Call, outcome: Outcome): seq<Event>
  {
    Return(t, call) + (Locking(t) + Resend(t, outcome))
  }

  function Return(t: Thread, call: Call): seq<Event>
  {
    [Unlock(t), Begin(t, call.ifStale, call.cfg)]
  }

  function Locking(t: Thread): seq<Event>
  {
    [GetLock(t), Acquire(t)]
  }

  function Resend(t: Thread, outcome: Outcome): seq<Event>
  {
    [LookAgain(t), Check(t), Exchanged(t, outcome)]
  }

  predicate Failing(w: World, t: Thread)
  {
    && w.At(t).Leaving? && w.token.Some? && w.token.value.refresh != "" && IsNormal(w.At(t).call.cfg)
    && !Skips(w.At(t).call, w.token.value, w.now)
  }

  /** The same token, exchanges and time. */
  predicate SameStore(w: World, v: World)
  {
    v.token == w.token && v.exchanges == w.exchanges && v.now == w.now && v.issued == w.issued
  }

  lemma Returns(w: World, t: Thread)
    requires LockInv(w) && Failing(w, t)
    ensures var events := Return(t, w.At(t).call);
            Run(w, events) &&
            var v, pc := After(w, events), w.At(t);
            && SameStore(w, v) && v.At(t).Looked? && v.lock == w.lock == Some(pc.lock) && pc.lock !in v.owner
            && v.At(t).call.ifStale == pc.call.ifStale && v.At(t).call.cfg == pc.call.cfg
  {
    assert LockAt(w, t);
    var call := w.At(t).call;
    var w1 := Effect(w, Unlock(t));
    OneMore(w1, Begin(t, call.ifStale, call.cfg), []);
    OneMore(w, Unlock(t), [Begin(t, call.ifStale, call.cfg)]);
  }

  lemma Locks(w: World, t: Thread)
    requires w.At(t).Looked? && w.lock.Some? && w.lock.value !in w.owner
    ensures Run(w, Locking(t)) &&
            var v := After(w, Locking(t));
            SameStore(w, v) && v.At(t) == Locked(w.At(t).call, w.lock.value)
  {
    var w1 := Effect(w, GetLock(t));
    OneMore(w1, Acquire(t), []);
    OneMore(w, GetLock(t), [Acquire(t)]);
  }

  lemma Resends(w: World, t: Thread, outcome: Outcome)
    requires w.At(t).Locked? && w.token.Some? && w.token.value.refresh != ""
    requires !Skips(w.At(t).call, w.token.value, w.now) && Honest(w.token.value.refresh, outcome, w.issued)
    ensures Run(w, Resend(t, outcome)) &&
            After(w, Resend(t, outcome)).exchanges == w.exchanges + [Exchange(w.token.value.refresh, outcome, w.now)]
  {
    var w1 := Effect(w, LookAgain(t));
    var w2 := Effect(w1, Check(t));
    OneMore(w2, Exchanged(t, outcome), []);
    OneMore(w1, Check(t), [Exchanged(t, outcome)]);
    OneMore(w, LookAgain(t), [Check(t), Exchanged(t, outcome)]);
  }

  lemma SendsAgain(w: World, t: Thread, outcome: Outcome)
    requires LockInv(w) && Failing(w, t) && Honest(w.token.value.refresh, outcome, w.issued)
    ensures var events := Again(t, w.At(t).call, outcome);
            Run(w, events) &&
            After(w, events).exchanges == w.exchanges + [Exchange(w.token.value.refresh, outcome, w.now)]
  {
    var call := w.At(t).call;
    Returns(w, t);
    var v := After(w, Return(t, call));
    Locks(v, t);
    var x := After(v, Locking(t));
    Resends(x, t, outcome);
    RunsJoin(v, Locking(t), Resend(t, outcome));
    RunsJoin(w, Return(t, call), Locking(t) + Resend(t, outcome));
  }

  predicate IsPlain(e: Event, gap: nat)
  {
    match e
    case Begin(_, _, cfg) => Normalize(cfg).interval >= gap && Normalize(cfg).debounce >= gap
    case Exchanged(_, outcome) => !outcome.Lost?
    case WroteFile(_, _) => false
    case LockForgotten => false
    case Removed => false
    case Reloaded(_) => false
    case _ => true
  }

  lemma {:induction false} PlainRun(w: World, events: seq<Event>, gap: nat)
    requires Run(w, events) && forall i :: 0 <= i < |events| ==> IsPlain(events[i], gap)
    ensures CarefulRun(w, events) && UnhurriedRun(w, events, gap)
    decreases events
  {
    if events != [] {
      PlainRun(Effect(w, events[0]), events[1..], gap);
    }
  }

  /** A rotated token that does not reach the store leaves the spent one there, for the next call to send. */
  lemma SpoiltReplays(w: World, e: Event) returns (more: seq<Event>)
    requires TokenInv(w) && CanHappen(w, e) && Spoils(w, e)
    ensures var v := Effect(w, e);
            Run(v, more) && CarefulRun(v, more) && !NeverReplayed(After(v, more).exchanges)
  {
    var v, t := Effect(w, e), e.t;
    assert TokenAt(w, t);
    StepKeepsLock(w, e);
    var sent := w.token.value.refresh;
    assert !NotSpent(v.exchanges, sent) by {
      if e.Exchanged? {
        assert v.exchanges[|w.exchanges|] == Exchange(sent, Lost, w.now);
      }
    }
    SendsAgain(v, t, Refused);
    more := Again(t, v.At(t).call, Refused);
    PlainRun(v, more, 0);
    var end := After(v, more).exchanges;
    var i :| 0 <= i < |v.exchanges| && Rotated(v.exchanges[i]) && v.exchanges[i].sent == sent;
    assert end[i] == v.exchanges[i] && end[|v.exchanges|].sent == sent;
  }

  /**
   Exactly which steps of a run without removal and reload let a spent token be sent again: those that
   lose a rotated token, because the reply does not arrive or the file cannot be written. After any
   other step no run without such steps replays a token.
   */
  lemma ReplayExactly(w: World, e: Event)
    requires FreshInv(w) && CanHappen(w, e) && Quiet(w, e)
    ensures var v := Effect(w, e);
            Spoils(w, e) <==>
            exists more :: Run(v, more) && CarefulRun(v, more) && !NeverReplayed(After(v, more).exchanges)
  {
    var v := Effect(w, e);
    if Spoils(w, e) {
      var more := SpoiltReplays(w, e);
    } else {
      StepKeepsFresh(w, e);
      forall more | Run(v, more) && CarefulRun(v, more)
        ensures NeverReplayed(After(v, more).exchanges)
      {
        RunKeepsFresh(v, more);
      }
    }
  }

  // ---------------------------------------------------------------- the distance between exchanges

  /** Every successful exchange is covered by the store's refresh time, or long enough ago. */
  predicate Paced(w: World, gap: nat)
    requires w.token.Some?
  {
    forall i :: 0 <= i < |w.exchanges| && w.exchanges[i].outcome.Granted? ==>
      || (w.token.value.lastRefresh.Some? && w.exchanges[i].at <= w.token.value.lastRefresh.value)
      || w.exchanges[i].at + gap <= w.now
  }

  predicate PaceAt(w: World, t: Thread, gap: nat)
  {
    var pc := w.At(t);
    && (pc.Looked? || Engaged(pc) ==> pc.call.cfg.interval >= gap && pc.call.cfg.debounce >= gap)
    && (pc.Sending? ==> GrantedBy(w.exchanges, w.now - gap))
  }

  ghost predicate PaceInv(w: World, gap: nat)
  {
    && TokenInv(w) && Spaced(w.exchanges, gap) && GrantedBy(w.exchanges, w.now)
    && (forall t :: PaceAt(w, t, gap))
    && ((forall t :: !Pending(w.At(t))) ==> Paced(w, gap))
  }

  lemma OneMoreExchange(exchanges: seq<Exchange>, x: Exchange, gap: nat)
    requires Spaced(exchanges, gap) && GrantedBy(exchanges, x.at - gap)
    ensures Spaced(exchanges + [x], gap) && GrantedBy(exchanges + [x], x.at)
  {
  }

  lemma ExchangeKeepsPace(w: World, t: Thread, outcome: Outcome, gap: nat)
    requires PaceInv(w, gap) && CanHappen(w, Exchanged(t, outcome))
    ensures PaceInv(Effect(w, Exchanged(t, outcome)), gap)
  {
    var v := Effect(w, Exchanged(t, outcome));
    StepKeepsToken(w, Exchanged(t, outcome));
    NoOtherPending(w, t);
    assert PaceAt(w, t, gap);
    OneMoreExchange(w.exchanges, Exchange(w.At(t).token.refresh, outcome, w.now), gap);
    forall u
      ensures PaceAt(v, u, gap)
    {
      assert PaceAt(w, u, gap);
      if u != t && HoldsLock(w.At(u)) {
        OnlyHolder(w, u, t);
      }
    }
    if outcome.Granted? {
      assert Pending(v.At(t));
    }
  }

  lemma WriteKeepsPace(w: World, t: Thread, ok: bool, gap: nat)
    requires PaceInv(w, gap) && CanHappen(w, WroteFile(t, ok)) && !Rushes(w, WroteFile(t, ok), gap)
    ensures PaceInv(Effect(w, WroteFile(t, ok)), gap)
  {
    var v := Effect(w, WroteFile(t, ok));
    StepKeepsToken(w, WroteFile(t, ok));
    forall u
      ensures PaceAt(v, u, gap)
    {
      assert PaceAt(w, u, gap);
    }
    if ok {
      assert Pending(v.At(t));
    }
  }

  lemma UpdateKeepsPace(w: World, t: Thread, gap: nat)
    requires PaceInv(w, gap) && CanHappen(w, Updated(t))
    ensures PaceInv(Effect(w, Updated(t)), gap)
  {
    var v := Effect(w, Updated(t));
    StepKeepsToken(w, Updated(t));
    forall u
      ensures PaceAt(v, u, gap)
    {
      assert PaceAt(w, u, gap);
    }
  }

  lemma CheckKeepsPace(w: World, t: Thread, gap: nat)
    requires PaceInv(w, gap) && CanHappen(w, Check(t))
    ensures PaceInv(Effect(w, Check(t)), gap)
  {
    var v := Effect(w, Check(t));
    StepKeepsToken(w, Check(t));
    NoOtherPending(w, t);
    assert TokenAt(w, t) && PaceAt(w, t, gap);
    forall u
      ensures PaceAt(v, u, gap)
    {
      assert PaceAt(w, u, gap);
    }
  }

  lemma StepKeepsPace(w: World, e: Event, gap: nat)
    requires PaceInv(w, gap) && CanHappen(w, e) && Unhurried(w, e, gap)
    ensures PaceInv(Effect(w, e), gap)
  {
    if e.Exchanged? {
      ExchangeKeepsPace(w, e.t, e.outcome, gap);
    } else if e.WroteFile? {
      WriteKeepsPace(w, e.t, e.ok, gap);
    } else if e.Updated? {
      UpdateKeepsPace(w, e.t, gap);
    } else if e.Check? {
      CheckKeepsPace(w, e.t, gap);
    } else {
      OtherKeepsPace(w, e, gap);
    }
  }

  /** A step of one thread that leaves the store and the server alone and is not about to send. */
  lemma MoveKeepsPace(w: World, v: World, t: Thread, gap: nat)
    requires PaceInv(w, gap) && TokenInv(v) && SameStore(w, v)
    requires forall u :: u != t ==> v.At(u) == w.At(u)
    requires PaceAt(v, t, gap) && Pending(v.At(t)) == Pending(w.At(t))
    ensures PaceInv(v, gap)
  {
    forall u
      ensures PaceAt(v, u, gap) && Pending(v.At(u)) == Pending(w.At(u))
    {
      assert PaceAt(w, u, gap);
    }
  }

  lemma TickKeepsPace(w: World, seconds: nat, gap: nat)
    requires PaceInv(w, gap)
    ensures PaceInv(Effect(w, Tick(seconds)), gap)
  {
    var v := Effect(w, Tick(seconds));
    TickKeepsToken(w, seconds);
    forall u
      ensures PaceAt(v, u, gap) && v.At(u) == w.At(u)
    {
      assert PaceAt(w, u, gap);
    }
  }

  lemma BeginKeepsPace(w: World, t: Thread, ifStale: bool, cfg: Config, gap: nat)
    requires PaceInv(w, gap) && CanHappen(w, Begin(t, ifStale, cfg)) && IsPlain(Begin(t, ifStale, cfg), gap)
    ensures PaceInv(Effect(w, Begin(t, ifStale, cfg)), gap)
  {
    BeginKeepsToken(w, t, ifStale, cfg);
    MoveKeepsPace(w, Effect(w, Begin(t, ifStale, cfg)), t, gap);
  }

  lemma LockStepKeepsPace(w: World, e: Event, gap: nat)
    requires PaceInv(w, gap) && CanHappen(w, e) && (e.GetLock? || e.Acquire? || e.LookAgain? || e.Unlock?)
    ensures PaceInv(Effect(w, e), gap)
  {
    StepKeepsToken(w, e);
    assert PaceAt(w, e.t, gap);
    MoveKeepsPace(w, Effect(w, e), e.t, gap);
  }

  lemma OtherKeepsPace(w: World, e: Event, gap: nat)
    requires PaceInv(w, gap) && CanHappen(w, e) && Unhurried(w, e, gap)
    requires !e.Exchanged? && !e.WroteFile? && !e.Updated? && !e.Check?
    ensures PaceInv(Effect(w, e), gap)
  {
    if e.Tick? {
      TickKeepsPace(w, e.seconds, gap);
    } else if e.Begin? {
      BeginKeepsPace(w, e.t, e.ifStale, e.cfg, gap);
    } else if e.LockForgotten? {
      StepKeepsToken(w, e);
      assert PaceAt(w, 0, gap);
      MoveKeepsPace(w, Effect(w, e), 0, gap);
    } else {
      LockStepKeepsPace(w, e, gap);
    }
  }

  lemma {:induction false} RunKeepsPace(w: World, events: seq<Event>, gap: nat)
    requires PaceInv(w, gap) && Run(w, events) && UnhurriedRun(w, events, gap)
    ensures PaceInv(After(w, events), gap)
    decreases events
  {
    if events != [] {
      StepKeepsPace(w, events[0], gap);
      RunKeepsPace(Effect(w, events[0]), events[1..], gap);
    }
  }

  lemma RushedCrowds(w: World, e: Event, gap: nat) returns (more: seq<Event>)
    requires PaceInv(w, gap) && CanHappen(w, e) && Rushes(w, e, gap)
    ensures var v := Effect(w, e);
            Run(v, more) && UnhurriedRun(v, more, gap) && !Spaced(After(v, more).exchanges, gap)
  {
    var v, t := Effect(w, e), e.t;
    assert TokenAt(w, t) && PaceAt(w, t, gap);
    StepKeepsLock(w, e);
    var outcome := Granted("", "");
    SendsAgain(v, t, outcome);
    more := Again(t, v.At(t).call, outcome);
    PlainRun(v, more, gap);
    var end := After(v, more).exchanges;
    var i :| 0 <= i < |w.exchanges| && w.exchanges[i].outcome.Granted? && w.exchanges[i].at > w.now - gap;
    assert end[i] == w.exchanges[i] && end[|w.exchanges|].outcome == outcome;
  }

  /**
   Exactly which steps of a run without removal and reload let two successful exchanges come too close:
   a failed write less than the distance after the exchange whose result it loses.
   */
  lemma CrowdingExactly(w: World, e: Event, gap: nat)
    requires PaceInv(w, gap) && CanHappen(w, e) && Quiet(w, e)
    requires e.Begin? ==> IsPlain(e, gap)
    ensures var v := Effect(w, e);
            Rushes(w, e, gap) <==>
            exists more :: Run(v, more) && UnhurriedRun(v, more, gap) && !Spaced(After(v, more).exchanges, gap)
  {
    var v := Effect(w, e);
    if Rushes(w, e, gap) {
      var more := RushedCrowds(w, e, gap);
    } else {
      StepKeepsPace(w, e, gap);
      forall more | Run(v, more) && UnhurriedRun(v, more, gap)
        ensures Spaced(After(v, more).exchanges, gap)
      {
        RunKeepsPace(v, more, gap);
      }
    }
  }

  // ---------------------------------------------------------------- every run

  lemma TokenInvMeansUpdated(w: World)
    requires TokenInv(w)
    ensures TrueMeansUpdated(w)
  {
    forall t | t in w.threads && w.threads[t].Done? && w.threads[t].result == Returned(true)
      ensures w.threads[t].since < w.updates
    {
      assert TokenAt(w, t);
    }
  }

  /**
   Every interleaving of any number of callers. One caller at a time is past the lock as long as it is
   forgotten only while nobody wants it. Without removal and reload: a rotated refresh token is never
   sent again unless one was lost on its way to the store; successful exchanges are at least as far apart
   as every caller asks unless one was forgotten too soon; and then a caller that reports a refresh finds
   new credentials.
   */
  lemma EveryRunIsSafe(w: World, events: seq<Event>, gap: nat)
    requires InitialWorld(w) && Run(w, events)
    ensures LockKept(w, events) ==> Exclusive(After(w, events))
    ensures CarefulRun(w, events) ==> FreshInv(After(w, events)) && NeverReplayed(After(w, events).exchanges)
    ensures UnhurriedRun(w, events, gap) ==>
              && PaceInv(After(w, events), gap)
              && Spaced(After(w, events).exchanges, gap) && TrueMeansUpdated(After(w, events))
  {
    if LockKept(w, events) {
      RunKeepsLock(w, events);
      LockIsExclusive(After(w, events));
    }
    if CarefulRun(w, events) {
      RunKeepsFresh(w, events);
    }
    if UnhurriedRun(w, events, gap) {
      RunKeepsPace(w, events, gap);
      TokenInvMeansUpdated(After(w, events));
    }
  }

  // ---------------------------------------------------------------- two replays

  const ROTATION := Granted("access2", "refresh2")

  /** The holder of the lock sends the refresh token and gets a new one, but the file cannot be written. */
  function FailedWrite(t: Thread): seq<Event>
  {
    [LookAgain(t), Check(t), Exchanged(t, ROTATION), WroteFile(t, false)]
  }

  /** The server issues a new token, but the client of the proxy is gone before the reply arrives. */
  function LostReply(t: Thread): seq<Event>
  {
    [LookAgain(t), Check(t), Exchanged(t, Lost)]
  }

  lemma FailsToWrite(w: World, t: Thread)
    requires w.At(t).Locked? && !w.At(t).call.ifStale && w.token == Some(CRED) && "refresh2" !in w.issued
    ensures Run(w, FailedWrite(t)) &&
            var v := After(w, FailedWrite(t));
            && v.At(t) == Leaving(w.At(t).call, w.At(t).lock, Failed) && v.token == w.token && v.now == w.now
            && v.exchanges == w.exchanges + [Exchange("refresh", ROTATION, w.now)]
            && v.lock == w.lock && v.owner == w.owner
  {
    var w1 := Effect(w, LookAgain(t));
    var w2 := Effect(w1, Check(t));
    var w3 := Effect(w2, Exchanged(t, ROTATION));
    OneMore(w3, WroteFile(t, false), []);
    OneMore(w2, Exchanged(t, ROTATION), [WroteFile(t, false)]);
    OneMore(w1, Check(t), [Exchanged(t, ROTATION), WroteFile(t, false)]);
    OneMore(w, LookAgain(t), [Check(t), Exchanged(t, ROTATION), WroteFile(t, false)]);
  }

  lemma LosesReply(w: World, t: Thread)
    requires w.At(t).Locked? && !w.At(t).call.ifStale && w.token == Some(CRED)
    ensures Run(w, LostReply(t)) &&
            var v := After(w, LostReply(t));
            && v.At(t) == Leaving(w.At(t).call, w.At(t).lock, Failed) && v.token == w.token && v.now == w.now
            && v.exchanges == w.exchanges + [Exchange("refresh", Lost, w.now)]
            && v.lock == w.lock && v.owner == w.owner
  {
    var w1 := Effect(w, LookAgain(t));
    var w2 := Effect(w1, Check(t));
    OneMore(w2, Exchanged(t, Lost), []);
    OneMore(w1, Check(t), [Exchanged(t, Lost)]);
    OneMore(w, LookAgain(t), [Check(t), Exchanged(t, Lost)]);
  }

  /** What either failure leaves: the caller gives up, and its next call sends the spent token again. */
  lemma FailureReplays(w: World, t: Thread, failure: seq<Event>)
    requires LockInv(w) && Run(w, failure) && forall i :: 0 <= i < |failure| ==> !failure[i].LockForgotten?
    requires var v := After(w, failure);
             && v.At(t).Leaving? && v.At(t).call == FIRST_CALL && v.token == Some(CRED)
             && v.exchanges != [] && Rotated(v.exchanges[0]) && v.exchanges[0].sent == CRED.refresh
    ensures var events := failure + Again(t, FIRST_CALL, Refused);
            Run(w, events) && !NeverReplayed(After(w, events).exchanges)
  {
    NoForgetting(w, failure);
    RunKeepsLock(w, failure);
    var v := After(w, failure);
    SendsAgain(v, t, Refused);
    RunsJoin(w, failure, Again(t, FIRST_CALL, Refused));
    var end := After(v, Again(t, FIRST_CALL, Refused)).exchanges;
    assert end[0] == v.exchanges[0] && end[|v.exchanges|].sent == CRED.refresh;
  }

  const FIRST_CALL := Call(false, Config(DEFAULT_REFRESH_WINDOW, DEFAULT_REFRESH_GAP), CRED, 0)

  lemma FirstArrives()
    ensures InitialWorld(START) && LockInv(START) && Run(START, Arrival(1))
    ensures var w := After(START, Arrival(1));
            LockInv(w) && w.At(1) == Locked(FIRST_CALL, 0) && w.token == Some(CRED) && w.exchanges == [] && w.now == 0
            && w.issued == {"refresh"}
  {
    Arrives(START, 1);
    RunKeepsLock(START, Arrival(1));
  }

  lemma FailedWriteReplays()
    ensures var events := Arrival(1) + (FailedWrite(1) + Again(1, FIRST_CALL, Refused));
            InitialWorld(START) && Run(START, events) && !NeverReplayed(After(START, events).exchanges)
  {
    FirstArrives();
    var w := After(START, Arrival(1));
    FailsToWrite(w, 1);
    FailureReplays(w, 1, FailedWrite(1));
    RunsJoin(START, Arrival(1), FailedWrite(1) + Again(1, FIRST_CALL, Refused));
  }

  lemma LostReplyReplays()
    ensures var events := Arrival(1) + (LostReply(1) + Again(1, FIRST_CALL, Refused));
            InitialWorld(START) && Run(START, events) && !NeverReplayed(After(START, events).exchanges)
  {
    FirstArrives();
    var w := After(START, Arrival(1));
    LosesReply(w, 1);
    FailureReplays(w, 1, LostReply(1));
    RunsJoin(START, Arrival(1), LostReply(1) + Again(1, FIRST_CALL, Refused));
  }
}
