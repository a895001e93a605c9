/**
 What a caller of the refresh is told. It is true after an exchange of its own; a caller that waited while others
 refreshed compares what it saw first with what it sees past the lock, by refresh time and access token. In runs
 without removal and reload that comparison is exact: each update moves the refresh time strictly forward.
 */
module RefreshAnswers {
  import opened Prelude
  import opened RefreshProtocol

  predicate Later(before: Option<nat>, after: Option<nat>)
  {
    after.Some? && (before.None? || after.value > before.value)
  }

  predicate Past(time: Option<nat>, now: nat)
  {
    time.Some? ==> time.value < now
  }

  /** A caller that missed an update was looking at an older time, and the one about to update is newer. */
  predicate AnswerAt(w: World, t: Thread)
    requires w.token.Some?
  {
    var pc, cred := w.At(t), w.token.value;
    && (pc.Looked? || Engaged(pc) ==>
          cred.refresh != "" && (pc.call.since < w.updates ==> Later(pc.call.initial.lastRefresh, cred.lastRefresh)))
    && (pc.Received? || pc.Written? ==> pc.refresh != "")
    && (pc.Written? ==> Past(cred.lastRefresh, w.now))
  }

  ghost predicate AnswerInv(w: World)
  {
    TokenInv(w) && forall t :: AnswerAt(w, t)
  }

  /** A caller that did not skip will update with a later time. */
  lemma SendingIsLater(call: Call, token: Cred, now: nat)
    requires IsNormal(call.cfg) && !Skips(call, token, now)
    ensures Past(token.lastRefresh, now)
  {
  }

  lemma UpdateKeepsAnswers(w: World, t: Thread)
    requires AnswerInv(w) && CanHappen(w, Updated(t))
    ensures AnswerInv(Effect(w, Updated(t)))
  {
    var v := Effect(w, Updated(t));
    StepKeepsToken(w, Updated(t));
    assert AnswerAt(w, t);
    forall u
      ensures AnswerAt(v, u)
    {
      assert AnswerAt(w, u) && TokenAt(w, u);
      if u != t && HoldsLock(w.At(u)) {
        OnlyHolder(w, u, t);
      }
    }
  }

  lemma WriteKeepsAnswers(w: World, t: Thread, ok: bool)
    requires AnswerInv(w) && CanHappen(w, WroteFile(t, ok))
    ensures AnswerInv(Effect(w, WroteFile(t, ok)))
  {
    var v := Effect(w, WroteFile(t, ok));
    StepKeepsToken(w, WroteFile(t, ok));
    assert TokenAt(w, t);
    SendingIsLater(w.At(t).call, w.token.value, w.now);
    forall u
      ensures AnswerAt(v, u)
    {
      assert AnswerAt(w, u);
    }
  }

  /** A step of one thread that leaves the token and the number of updates alone. */
  lemma MoveKeepsAnswers(w: World, v: World, t: Thread)
    requires AnswerInv(w) && TokenInv(v) && v.token == w.token && v.updates == w.updates && v.now >= w.now
    requires forall u :: u != t ==> v.At(u) == w.At(u)
    requires AnswerAt(v, t)
    ensures AnswerInv(v)
  {
    forall u
      ensures AnswerAt(v, u)
    {
      assert AnswerAt(w, u);
    }
  }

  lemma BeginKeepsAnswers(w: World, t: Thread, ifStale: bool, cfg: Config)
    requires AnswerInv(w) && CanHappen(w, Begin(t, ifStale, cfg))
    ensures AnswerInv(Effect(w, Begin(t, ifStale, cfg)))
  {
    BeginKeepsToken(w, t, ifStale, cfg);
    MoveKeepsAnswers(w, Effect(w, Begin(t, ifStale, cfg)), t);
  }

  lemma OtherKeepsAnswers(w: World, e: Event)
    requires AnswerInv(w) && CanHappen(w, e) && Quiet(w, e) && !e.Updated? && !e.WroteFile? && !e.Begin?
    ensures AnswerInv(Effect(w, e))
  {
    StepKeepsToken(w, e);
    var t := if e.LockForgotten? || e.Tick? then 0 else e.t;
    assert AnswerAt(w, t) && TokenAt(w, t);
    MoveKeepsAnswers(w, Effect(w, e), t);
  }

  lemma StepKeepsAnswers(w: World, e: Event)
    requires AnswerInv(w) && CanHappen(w, e) && Quiet(w, e)
    ensures AnswerInv(Effect(w, e))
  {
    if e.Updated? {
      UpdateKeepsAnswers(w, e.t);
    } else if e.WroteFile? {
      WriteKeepsAnswers(w, e.t, e.ok);
    } else if e.Begin? {
      BeginKeepsAnswers(w, e.t, e.ifStale, e.cfg);
    } else {
      OtherKeepsAnswers(w, e);
    }
  }

  ghost predicate QuietRun(w: World, events: seq<Event>)
    requires Run(w, events)
    decreases events
  {
    events == [] || (Quiet(w, events[0]) && QuietRun(Effect(w, events[0]), events[1..]))
  }

  lemma {:induction false} RunKeepsAnswers(w: World, events: seq<Event>)
    requires AnswerInv(w) && Run(w, events) && QuietRun(w, events)
    ensures AnswerInv(After(w, events))
    decreases events
  {
    if events != [] {
      StepKeepsAnswers(w, events[0]);
      RunKeepsAnswers(Effect(w, events[0]), events[1..]);
    }
  }

  /** The comparison past the lock says exactly whether there was an update since the first look. */
  lemma ComparisonIsExact(w: World, t: Thread)
    requires AnswerInv(w) && w.At(t).LookedAgain?
    ensures RefreshedSince(w.At(t).call.initial, w.At(t).token) <==> w.At(t).call.since < w.updates
  {
    assert AnswerAt(w, t) && TokenAt(w, t);
  }

  /**
   In every run without removal and reload, a caller that does not send the refresh token itself is told true if
   and only if the store was updated between its two looks; and it never finds the refresh token gone.
   */
  lemma EveryCallerIsToldExactly(w: World, events: seq<Event>, t: Thread)
    requires InitialWorld(w) && Run(w, events) && QuietRun(w, events)
    ensures var v := After(w, events);
            && (CanHappen(v, LookAgain(t)) ==> Effect(v, LookAgain(t)).At(t).LookedAgain?)
            && (CanHappen(v, Check(t)) && Skips(v.At(t).call, v.At(t).token, v.now) ==>
                  var told := Effect(v, Check(t)).At(t);
                  told.Leaving? && told.result == Returned(v.At(t).call.since < v.updates))
  {
    var v := After(w, events);
    RunKeepsAnswers(w, events);
    assert AnswerAt(v, t);
    if v.At(t).LookedAgain? {
      ComparisonIsExact(v, t);
    }
  }

  // ---------------------------------------------------------------- when the token is exchanged

  /** Eight days and thirty seconds, unless the caller asks for something positive. */
  lemma DefaultsAreExact(cfg: Config)
    ensures Normalize(cfg).interval == if cfg.interval > 0 then cfg.interval else 691200
    ensures Normalize(cfg).debounce == if cfg.debounce > 0 then cfg.debounce else 30
  {
  }

  /**
   The first look. A caller goes on to the lock exactly when there is a refresh token and, if it only refreshes
   what is stale, the last refresh is known and longer ago than the interval it asks for; else it is done.
   */
  lemma GoesOnExactly(w: World, t: Thread, ifStale: bool, cfg: Config)
    requires CanHappen(w, Begin(t, ifStale, cfg))
    ensures var interval := if cfg.interval > 0 then cfg.interval else 691200;
            var pc := Effect(w, Begin(t, ifStale, cfg)).At(t);
            && (pc.Looked? <==>
                  && w.token.Some? && w.token.value.refresh != ""
                  && (ifStale ==>
                        w.token.value.lastRefresh.Some? && w.now - w.token.value.lastRefresh.value > interval))
            && (pc.Looked? ==> pc.call == Call(ifStale, Normalize(cfg), w.token.value, w.updates))
            && (!pc.Looked? ==> pc == Done(w.updates, if w.token.None? then Failed else Returned(false)))
  {
  }

  /**
   The second look. Past the lock the refresh token is sent exactly when, for a caller that refreshes what is
   stale, the last refresh is known and longer ago than its interval, and for any other caller unknown or at least
   the debounce ago.
   */
  lemma SendsExactly(w: World, t: Thread)
    requires CanHappen(w, Check(t))
    ensures var call, last := w.At(t).call, w.At(t).token.lastRefresh;
            Effect(w, Check(t)).At(t).Sending? <==>
              if call.ifStale then last.Some? && w.now - last.value > call.cfg.interval
              else last.None? || w.now - last.value >= call.cfg.debounce
  {
  }

  /** A refused or lost exchange and a failed write are errors, and leave the token and the updates alone. */
  lemma FailuresAreReported(w: World, t: Thread, e: Event)
    requires CanHappen(w, e)
    requires (e == Exchanged(t, Refused)) || (e == Exchanged(t, Lost)) || (e == WroteFile(t, false))
    ensures var v := Effect(w, e);
            && v.At(t).Leaving? && v.At(t).result == Failed && v.token == w.token && v.updates == w.updates
            && |v.exchanges| == |w.exchanges| + if e.Exchanged? then 1 else 0
  {
  }

  /** A call from its first look to its end, with these answers. */
  function WholeCall(t: Thread, ifStale: bool, cfg: Config, access: string, refresh: string): seq<Event>
  {
    [Begin(t, ifStale, cfg)] + (Locking(t) + (Resend(t, Granted(access, refresh)) + Finish(t)))
  }

  function Finish(t: Thread): seq<Event>
  {
    [WroteFile(t, true), Updated(t), Unlock(t)]
  }

  lemma Finishes(w: World, t: Thread)
    requires w.At(t).Received? && w.token.Some?
    ensures Run(w, Finish(t)) &&
            var v := After(w, Finish(t));
            && v.At(t) == Done(w.At(t).call.since, Returned(true))
            && v.token == Some(Cred(w.At(t).access, w.At(t).refresh, Some(w.now)))
            && v.exchanges == w.exchanges && v.updates == w.updates + 1
  {
    var w1 := Effect(w, WroteFile(t, true));
    var w2 := Effect(w1, Updated(t));
    OneMore(w2, Unlock(t), []);
    OneMore(w1, Updated(t), [Unlock(t)]);
    OneMore(w, WroteFile(t, true), [Updated(t), Unlock(t)]);
  }

  lemma Receives(w: World, t: Thread, access: string, refresh: string)
    requires w.At(t).Locked? && w.token.Some? && w.token.value.refresh != ""
    requires !Skips(w.At(t).call, w.token.value, w.now)
    requires refresh == "" || refresh == w.token.value.refresh || refresh !in w.issued
    ensures Run(w, Resend(t, Granted(access, refresh))) &&
            var v, sent := After(w, Resend(t, Granted(access, refresh))), w.token.value.refresh;
            && v.At(t) == Received(w.At(t).call, w.At(t).lock, sent, access, if refresh == "" then sent else refresh)
            && v.token == w.token && v.now == w.now && v.updates == w.updates
            && v.exchanges == w.exchanges + [Exchange(sent, Granted(access, refresh), w.now)]
  {
    var w1 := Effect(w, LookAgain(t));
    var w2 := Effect(w1, Check(t));
    OneMore(w2, Exchanged(t, Granted(access, refresh)), []);
    OneMore(w1, Check(t), [Exchanged(t, Granted(access, refresh))]);
    OneMore(w, LookAgain(t), [Check(t), Exchanged(t, Granted(access, refresh))]);
  }

  /** The call is one that must refresh: forced and not within the debounce, or stale for its interval. */
  predicate Due(cred: Cred, now: nat, ifStale: bool, cfg: Config)
  {
    var interval := if cfg.interval > 0 then cfg.interval else 691200;
    var debounce := if cfg.debounce > 0 then cfg.debounce else 30;
    if ifStale then cred.lastRefresh.Some? && now - cred.lastRefresh.value > interval
    else cred.lastRefresh.None? || now - cred.lastRefresh.value >= debounce
  }

  lemma LocksAt(w: World, t: Thread)
    requires w.At(t).Looked? && (w.lock.Some? ==> w.lock.value !in w.owner) && w.locks !in w.owner
    ensures Run(w, Locking(t)) &&
            var v := After(w, Locking(t));
            SameStore(w, v) && v.updates == w.updates && v.At(t).Locked? && v.At(t).call == w.At(t).call
  {
    var w1 := Effect(w, GetLock(t));
    OneMore(w1, Acquire(t), []);
    OneMore(w, GetLock(t), [Acquire(t)]);
  }

  /**
   Progress. Whenever a call is due and the lock is free, the call, left to itself, sends the refresh token and
   brings the answer to the store: it returns true, and the token has the new credentials and the present time.
   */
  lemma LoneCallerRefreshes(w: World, t: Thread, ifStale: bool, cfg: Config, access: string, refresh: string)
    requires w.token.Some? && w.token.value.refresh != "" && (w.At(t).Idle? || w.At(t).Done?)
    requires (w.lock.Some? ==> w.lock.value !in w.owner) && w.locks !in w.owner
    requires Due(w.token.value, w.now, ifStale, cfg)
    requires refresh == "" || refresh == w.token.value.refresh || refresh !in w.issued
    ensures var events := WholeCall(t, ifStale, cfg, access, refresh);
            Run(w, events) &&
            var v, sent := After(w, events), w.token.value.refresh;
            && v.At(t) == Done(w.updates, Returned(true))
            && v.exchanges == w.exchanges + [Exchange(sent, Granted(access, refresh), w.now)]
            && v.token == Some(Cred(access, if refresh == "" then sent else refresh, Some(w.now)))
  {
    GoesOnExactly(w, t, ifStale, cfg);
    DefaultsAreExact(cfg);
    var w1 := Effect(w, Begin(t, ifStale, cfg));
    LocksAt(w1, t);
    var w2 := After(w1, Locking(t));
    Receives(w2, t, access, refresh);
    var w3 := After(w2, Resend(t, Granted(access, refresh)));
    Finishes(w3, t);
    RunsJoin(w2, Resend(t, Granted(access, refresh)), Finish(t));
    RunsJoin(w1, Locking(t), Resend(t, Granted(access, refresh)) + Finish(t));
    OneMore(w, Begin(t, ifStale, cfg), Locking(t) + (Resend(t, Granted(access, refresh)) + Finish(t)));
  }
}
