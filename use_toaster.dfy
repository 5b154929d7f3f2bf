/** The dismissal scheduler behind `useToaster`, driven by a logical clock.

    A mounted scheduler watches the registry. Whenever the registry changes
    it recomputes every visible finite toast's deadline
    `createdAt + duration + pauseDuration`: a toast whose deadline has come
    is dismissed at once, every other one gets a pending timer for its
    deadline, replacing the timer it had. While the registry is paused no
    timer is kept, so nothing is dismissed; when the pause ends every toast's
    pause duration has grown by the paused interval, which pushes each
    deadline back by exactly that much. The removals that follow dismissals
    are the registry's own timers and keep running.

    The functions on `Sys` specify the scheduler on values; the class
    `Toaster` holds the timers as a field and fires them, and each of its
    methods is proved to produce the state the matching function describes. */
module UseToaster {
  import opened Types
  import opened Store

  /** Registry, clock, and whether the scheduler is mounted. */
  datatype Sys = Sys(reg: Registry, now: int, mounted: bool)

  predicate HasFiniteDuration(o: ToasterOptions, t: Toast) {
    EffectiveDuration(o, t).Finite?
  }

  /** The instant a toast's countdown runs out. */
  function Deadline(o: ToasterOptions, t: Toast): int
    requires HasFiniteDuration(o, t)
  {
    t.createdAt + EffectiveDuration(o, t).ms + t.pauseDuration
  }

  /** The countdown has run out: no time is left. */
  predicate IsDue(o: ToasterOptions, t: Toast, now: int) {
    t.visible && HasFiniteDuration(o, t) && Deadline(o, t) <= now
  }

  /** The countdown is still running and needs a timer. */
  predicate IsPending(o: ToasterOptions, t: Toast, now: int) {
    t.visible && HasFiniteDuration(o, t) && Deadline(o, t) > now
  }

  /** Ids of the toasts whose countdown has run out by `now`. */
  function DueIds(o: ToasterOptions, ts: seq<Toast>, now: int): set<string>
    decreases |ts|
  {
    if ts == [] then {}
    else DueIds(o, ts[..|ts| - 1], now) + (if IsDue(o, ts[|ts| - 1], now) then {ts[|ts| - 1].id} else {})
  }

  /** A timer per toast whose countdown is still running, set to its deadline. */
  function PendingTimers(o: ToasterOptions, ts: seq<Toast>, now: int): map<string, int>
    decreases |ts|
  {
    if ts == [] then map[]
    else
      var t := ts[|ts| - 1];
      var rest := PendingTimers(o, ts[..|ts| - 1], now);
      if IsPending(o, t, now) then rest[t.id := Deadline(o, t)] else rest
  }

  /** The scheduler is mounted and the registry is not paused. */
  predicate Active(s: Sys) {
    s.mounted && s.reg.pausedAt.None?
  }

  /** The timers the scheduler holds in state `s`: one for each running
      countdown while active, none otherwise. */
  function Timers(o: ToasterOptions, s: Sys): map<string, int> {
    if Active(s) then PendingTimers(o, s.reg.toasts, s.now) else map[]
  }

  /** The timers among `timers` that fire by `now`. */
  function FiredTimers(timers: map<string, int>, now: int): set<string> {
    set k | k in timers && timers[k] <= now
  }

  /** The scheduler's reaction to a registry snapshot: while active, dismiss
      every toast whose countdown has run out (and re-arm the timers, which
      `Timers` describes); otherwise nothing. */
  function AfterSync(o: ToasterOptions, s: Sys): Sys {
    if Active(s) then s.(reg := DismissIds(s.reg, DueIds(o, s.reg.toasts, s.now), s.now)) else s
  }

  /** The clock moves on one millisecond and the registry's removal timers
      that come due fire. */
  function Elapsed(s: Sys): Sys {
    s.(now := s.now + 1, reg := RemovalsFired(s.reg, s.now + 1))
  }

  /** One millisecond passes: the removals that come due fire, then the
      scheduler reacts. The dismissal timers that come due at this instant
      dismiss exactly what the reaction dismisses (`TimersFiringRedundant`). */
  function AfterTick(o: ToasterOptions, s: Sys): Sys {
    AfterSync(o, Elapsed(s))
  }

  function AfterAdvance(o: ToasterOptions, s: Sys, k: nat): Sys
    decreases k
  {
    if k == 0 then s else AfterTick(o, AfterAdvance(o, s, k - 1))
  }

  function AfterAdd(o: ToasterOptions, s: Sys, t: Toast): Sys {
    AfterSync(o, s.(reg := s.reg.(toasts := Added(s.reg.toasts, t))))
  }

  function AfterStartPause(o: ToasterOptions, s: Sys): Sys {
    AfterSync(o, s.(reg := StartPaused(s.reg, s.now)))
  }

  function AfterEndPause(o: ToasterOptions, s: Sys): Sys {
    AfterSync(o, s.(reg := EndPaused(s.reg, s.now)))
  }

  /** Teardown: the scheduler stops reacting and holds no timer. */
  function AfterDestroy(s: Sys): Sys {
    s.(mounted := false)
  }

  // ------------------------------------------------------------ helper facts

  lemma SameIdSameToast(ts: seq<Toast>, t: Toast, u: Toast)
    requires UniqueIds(ts) && t in ts && u in ts && t.id == u.id
    ensures t == u
  {
    var i :| 0 <= i < |ts| && ts[i] == t;
    var j :| 0 <= j < |ts| && ts[j] == u;
  }

  lemma UniquePrefix(ts: seq<Toast>)
    requires ts != [] && UniqueIds(ts)
    ensures UniqueIds(ts[..|ts| - 1]) && ts[|ts| - 1].id !in Ids(ts[..|ts| - 1])
  {
    var init := ts[..|ts| - 1];
    forall u | u in init ensures u.id != ts[|ts| - 1].id {
      var k :| 0 <= k < |init| && init[k] == u;
      assert ts[k] == u;
    }
  }

  /** Due ids are the ids of the due toasts. */
  lemma {:induction false} DueIdsMembers(o: ToasterOptions, ts: seq<Toast>, now: int)
    ensures forall k :: k in DueIds(o, ts, now) <==> exists t :: t in ts && IsDue(o, t, now) && t.id == k
    decreases |ts|
  {
    if ts != [] {
      var init := ts[..|ts| - 1];
      DueIdsMembers(o, init, now);
      assert ts == init + [ts[|ts| - 1]];
    }
  }

  /** With unique ids, a present toast's id is due exactly when it is due. */
  lemma DueIdOf(o: ToasterOptions, ts: seq<Toast>, now: int, t: Toast)
    requires UniqueIds(ts) && t in ts
    ensures t.id in DueIds(o, ts, now) <==> IsDue(o, t, now)
  {
    DueIdsMembers(o, ts, now);
    if t.id in DueIds(o, ts, now) {
      var u :| u in ts && IsDue(o, u, now) && u.id == t.id;
      SameIdSameToast(ts, t, u);
    }
  }

  /** With unique ids, a present toast has a pending timer exactly when its
      countdown is running, and the timer is set to its deadline; timers only
      belong to present ids. */
  lemma {:induction false} PendingTimersMembers(o: ToasterOptions, ts: seq<Toast>, now: int)
    requires UniqueIds(ts)
    ensures forall t :: t in ts ==> (t.id in PendingTimers(o, ts, now) <==> IsPending(o, t, now))
    ensures forall t :: t in ts && IsPending(o, t, now) ==> PendingTimers(o, ts, now)[t.id] == Deadline(o, t)
    ensures PendingTimers(o, ts, now).Keys <= Ids(ts)
    decreases |ts|
  {
    if ts != [] {
      var init := ts[..|ts| - 1];
      var last := ts[|ts| - 1];
      UniquePrefix(ts);
      PendingTimersMembers(o, init, now);
      assert ts == init + [last];
      forall t | t in ts ensures t == last || (t in init && t.id != last.id) {
        if t != last {
          assert t in init;
        }
      }
    }
  }

  /** Hiding toasts that were not running leaves the pending timers as they were. */
  lemma {:induction false} PendingTimersHidden(o: ToasterOptions, ts: seq<Toast>, h: set<string>, now: int)
    requires forall t :: t in ts && t.id in h ==> !IsPending(o, t, now)
    ensures PendingTimers(o, Hidden(ts, h), now) == PendingTimers(o, ts, now)
    decreases |ts|
  {
    if ts != [] {
      var init := ts[..|ts| - 1];
      assert Hidden(ts, h)[..|ts| - 1] == Hidden(init, h);
      PendingTimersHidden(o, init, h, now);
    }
  }

  /** Hiding some ids takes exactly those ids out of the due ones. */
  lemma {:induction false} DueIdsHidden(o: ToasterOptions, ts: seq<Toast>, h: set<string>, now: int)
    ensures DueIds(o, Hidden(ts, h), now) == DueIds(o, ts, now) - h
    decreases |ts|
  {
    if ts != [] {
      var init := ts[..|ts| - 1];
      assert Hidden(ts, h)[..|ts| - 1] == Hidden(init, h);
      DueIdsHidden(o, init, h, now);
    }
  }

  /** A toast untouched by a dismissal stays in the registry as it was. */
  lemma DismissKeeps(r: Registry, ids: set<string>, now: int, t: Toast)
    requires t in r.toasts && t.id !in ids && t.id !in r.removals
    ensures t in DismissIds(r, ids, now).toasts && t.id !in DismissIds(r, ids, now).removals
  {
    DismissIdsSemantics(r, ids, now);
    var i :| 0 <= i < |r.toasts| && r.toasts[i] == t;
    assert DismissIds(r, ids, now).toasts[i] == t;
  }

  /** A dismissed present toast stays in the registry, hidden, with its
      removal queued `RemoveDelay` after `now` unless one was already queued. */
  lemma DismissHides(r: Registry, ids: set<string>, now: int, t: Toast)
    requires t in r.toasts && t.id in ids
    ensures t.(visible := false) in DismissIds(r, ids, now).toasts
    ensures t.id in DismissIds(r, ids, now).removals
    ensures t.id !in r.removals ==> DismissIds(r, ids, now).removals[t.id] == now + RemoveDelay
  {
    DismissIdsSemantics(r, ids, now);
    var i :| 0 <= i < |r.toasts| && r.toasts[i] == t;
    assert DismissIds(r, ids, now).toasts[i] == t.(visible := false);
  }

  lemma DismissKeepsUnique(r: Registry, ids: set<string>, now: int)
    requires UniqueIds(r.toasts)
    ensures UniqueIds(DismissIds(r, ids, now).toasts)
  {
    HiddenFacts(r.toasts, ids * Ids(r.toasts));
  }

  lemma EndPausedKeepsUnique(r: Registry, time: int)
    requires UniqueIds(r.toasts)
    ensures UniqueIds(EndPaused(r, time).toasts)
  {
    var e := EndPaused(r, time);
    forall a, b | 0 <= a < b < |e.toasts| ensures e.toasts[a].id != e.toasts[b].id {
      assert e.toasts[a].id == r.toasts[a].id && e.toasts[b].id == r.toasts[b].id;
    }
  }

  lemma UpdatedKeepsUnique(ts: seq<Toast>, p: Patch)
    requires UniqueIds(ts)
    ensures UniqueIds(Updated(ts, p))
  {
    UpdatedPatchesOnlyItsId(ts, p);
  }

  /** One step of the subscription's scan over a due toast: dismissing it
      extends the dismissals so far, and it gets no timer. */
  lemma SyncStepDue(o: ToasterOptions, r: Registry, ts: seq<Toast>, i: int, now: int)
    requires 0 <= i < |ts| && IsDue(o, ts[i], now)
    ensures DismissIds(r, DueIds(o, ts[..i + 1], now), now) ==
      Dismissed(DismissIds(r, DueIds(o, ts[..i], now), now), Some(ts[i].id), now)
    ensures PendingTimers(o, ts[..i + 1], now) == PendingTimers(o, ts[..i], now)
  {
    assert ts[..i + 1][..i] == ts[..i];
    DismissIdsUnion(r, DueIds(o, ts[..i], now), {ts[i].id}, now);
  }

  /** One step of the scan over a toast that is not due: nothing more is
      dismissed, and a running countdown gets its timer. */
  lemma SyncStepOther(o: ToasterOptions, ts: seq<Toast>, i: int, now: int)
    requires 0 <= i < |ts| && !IsDue(o, ts[i], now)
    ensures DueIds(o, ts[..i + 1], now) == DueIds(o, ts[..i], now)
    ensures PendingTimers(o, ts[..i + 1], now) ==
      if IsPending(o, ts[i], now) then PendingTimers(o, ts[..i], now)[ts[i].id := Deadline(o, ts[i])]
      else PendingTimers(o, ts[..i], now)
  {
    assert ts[..i + 1][..i] == ts[..i];
  }

  // ------------------------------------------------------------ the timers

  /** With unique ids, the scheduler holds a timer for a present toast
      exactly when it is active and the toast's countdown is running; the
      timer is set to the toast's deadline; and no timer belongs to an absent
      id. */
  lemma TimersMeaning(o: ToasterOptions, s: Sys, t: Toast)
    requires UniqueIds(s.reg.toasts) && t in s.reg.toasts
    ensures t.id in Timers(o, s) <==> Active(s) && IsPending(o, t, s.now)
    ensures t.id in Timers(o, s) ==> Timers(o, s)[t.id] == Deadline(o, t)
    ensures Timers(o, s).Keys <= Ids(s.reg.toasts)
  {
    PendingTimersMembers(o, s.reg.toasts, s.now);
  }

  // ------------------------------------------------------------ the reaction

  /** The reaction keeps ids unique and the clock, anchor and mount as they
      were; while active it leaves nothing due and the timers it arms are
      those of the snapshot it saw. */
  lemma SyncFacts(o: ToasterOptions, s: Sys)
    requires UniqueIds(s.reg.toasts)
    ensures var a := AfterSync(o, s);
      UniqueIds(a.reg.toasts) && a.reg.pausedAt == s.reg.pausedAt && a.now == s.now && a.mounted == s.mounted
    ensures Active(s) ==> DueIds(o, AfterSync(o, s).reg.toasts, s.now) == {}
    ensures Active(s) ==> Timers(o, AfterSync(o, s)) == PendingTimers(o, s.reg.toasts, s.now)
  {
    if Active(s) {
      var ts := s.reg.toasts;
      var due := DueIds(o, ts, s.now);
      var hit := due * Ids(ts);
      DismissKeepsUnique(s.reg, due, s.now);
      forall t | t in ts && t.id in hit ensures !IsPending(o, t, s.now) {
        DueIdOf(o, ts, s.now, t);
      }
      PendingTimersHidden(o, ts, hit, s.now);
      DueIdsMembers(o, ts, s.now);
      assert due <= Ids(ts);
      DueIdsHidden(o, ts, hit, s.now);
    }
  }

  /** The reaction is idempotent: reacting to its own result changes nothing. */
  lemma SyncIdempotent(o: ToasterOptions, s: Sys)
    requires UniqueIds(s.reg.toasts)
    ensures AfterSync(o, AfterSync(o, s)) == AfterSync(o, s)
  {
    SyncFacts(o, s);
    if Active(s) {
      DismissNobody(AfterSync(o, s).reg, s.now);
    }
  }

  /** The reaction never touches a toast that is not due (or any toast while
      paused or unmounted). */
  lemma SyncKeeps(o: ToasterOptions, s: Sys, t: Toast)
    requires UniqueIds(s.reg.toasts) && t in s.reg.toasts && t.id !in s.reg.removals
    requires !Active(s) || !IsDue(o, t, s.now)
    ensures t in AfterSync(o, s).reg.toasts && t.id !in AfterSync(o, s).reg.removals
  {
    if Active(s) {
      DueIdOf(o, s.reg.toasts, s.now, t);
      DismissKeeps(s.reg, DueIds(o, s.reg.toasts, s.now), s.now, t);
    }
  }

  /** A toast that is due when the active scheduler reacts is dismissed then. */
  lemma SyncDismissesDue(o: ToasterOptions, s: Sys, t: Toast)
    requires UniqueIds(s.reg.toasts) && t in s.reg.toasts && Active(s) && IsDue(o, t, s.now)
    ensures t.(visible := false) in AfterSync(o, s).reg.toasts
    ensures t.id in AfterSync(o, s).reg.removals
    ensures t.id !in s.reg.removals ==> AfterSync(o, s).reg.removals[t.id] == s.now + RemoveDelay
  {
    DueIdOf(o, s.reg.toasts, s.now, t);
    DismissHides(s.reg, DueIds(o, s.reg.toasts, s.now), s.now, t);
  }

  /** The reaction keeps every present id present and every queued removal
      at its time. */
  lemma SyncKeepsRemovals(o: ToasterOptions, s: Sys)
    ensures Ids(AfterSync(o, s).reg.toasts) == Ids(s.reg.toasts)
    ensures forall id :: id in s.reg.removals ==>
      id in AfterSync(o, s).reg.removals && AfterSync(o, s).reg.removals[id] == s.reg.removals[id]
  {
    if Active(s) {
      DismissIdsSemantics(s.reg, DueIds(o, s.reg.toasts, s.now), s.now);
    }
  }

  // ------------------------------------------------------------ one tick

  lemma ElapsedKeepsUnique(s: Sys)
    requires UniqueIds(s.reg.toasts)
    ensures UniqueIds(Elapsed(s).reg.toasts)
  {
    KeptUnique(s.reg.toasts, DueRemovals(s.reg.removals, s.now + 1));
  }

  /** Firing the due removals keeps a toast with no removal queued. */
  lemma ElapsedKeeps(s: Sys, t: Toast)
    requires t in s.reg.toasts && t.id !in s.reg.removals
    ensures t in Elapsed(s).reg.toasts && t.id !in Elapsed(s).reg.removals
  {
    KeptMembers(s.reg.toasts, DueRemovals(s.reg.removals, s.now + 1));
  }

  /** Firing the due removals drops exactly their ids and keeps every later
      removal at its time. */
  lemma ElapsedRemovals(s: Sys)
    ensures Ids(Elapsed(s).reg.toasts) == Ids(s.reg.toasts) - DueRemovals(s.reg.removals, s.now + 1)
    ensures forall id :: id in s.reg.removals && s.reg.removals[id] > s.now + 1 ==>
      id in Elapsed(s).reg.removals && Elapsed(s).reg.removals[id] == s.reg.removals[id]
  {
    KeptIds(s.reg.toasts, DueRemovals(s.reg.removals, s.now + 1));
  }

  /** A tick keeps a toast untouched as long as it is not due at the new time
      (or the scheduler is paused or unmounted) and no removal is queued for it. */
  lemma TickKeeps(o: ToasterOptions, s: Sys, t: Toast)
    requires UniqueIds(s.reg.toasts) && t in s.reg.toasts && t.id !in s.reg.removals
    requires !Active(s) || !IsDue(o, t, s.now + 1)
    ensures var a := AfterTick(o, s);
      UniqueIds(a.reg.toasts) && t in a.reg.toasts && t.id !in a.reg.removals &&
      a.now == s.now + 1 && a.reg.pausedAt == s.reg.pausedAt && a.mounted == s.mounted
  {
    ElapsedKeepsUnique(s);
    ElapsedKeeps(s, t);
    SyncFacts(o, Elapsed(s));
    SyncKeeps(o, Elapsed(s), t);
  }

  /** The tick at which a running countdown comes due dismisses the toast and
      queues its removal `RemoveDelay` later. */
  lemma TickDismisses(o: ToasterOptions, s: Sys, t: Toast)
    requires UniqueIds(s.reg.toasts) && t in s.reg.toasts && t.id !in s.reg.removals
    requires Active(s) && IsDue(o, t, s.now + 1)
    ensures var a := AfterTick(o, s);
      UniqueIds(a.reg.toasts) && t.(visible := false) in a.reg.toasts &&
      t.id in a.reg.removals && a.reg.removals[t.id] == s.now + 1 + RemoveDelay &&
      a.now == s.now + 1 && a.reg.pausedAt == s.reg.pausedAt && a.mounted == s.mounted
  {
    ElapsedKeepsUnique(s);
    ElapsedKeeps(s, t);
    SyncFacts(o, Elapsed(s));
    SyncDismissesDue(o, Elapsed(s), t);
  }

  /** A tick before a queued removal is due keeps it queued at its time and
      keeps its toast present. */
  lemma TickKeepsRemoval(o: ToasterOptions, s: Sys, id: string)
    requires id in s.reg.removals && s.now + 1 < s.reg.removals[id]
    ensures var a := AfterTick(o, s);
      a.now == s.now + 1 && id in a.reg.removals && a.reg.removals[id] == s.reg.removals[id] &&
      (id in Ids(s.reg.toasts) ==> id in Ids(a.reg.toasts))
  {
    ElapsedRemovals(s);
    SyncKeepsRemovals(o, Elapsed(s));
  }

  /** The tick at which a queued removal comes due removes the toast. */
  lemma TickRemoves(o: ToasterOptions, s: Sys, id: string)
    requires id in s.reg.removals && s.reg.removals[id] <= s.now + 1
    ensures id !in Ids(AfterTick(o, s).reg.toasts)
  {
    ElapsedRemovals(s);
    SyncKeepsRemovals(o, Elapsed(s));
  }

  /** The dismissal timers that fire during a tick add nothing to what the
      reaction that follows dismisses: firing them and then reacting leaves
      the same state as reacting alone. */
  lemma TimersFiringRedundant(o: ToasterOptions, s: Sys)
    requires UniqueIds(s.reg.toasts)
    ensures var e := Elapsed(s);
      AfterSync(o, e.(reg := DismissIds(e.reg, FiredTimers(Timers(o, s), e.now), e.now))) == AfterSync(o, e)
  {
    var e := Elapsed(s);
    var n := e.now;
    var fired := FiredTimers(Timers(o, s), n);
    if !Active(s) {
      assert fired == {};
      DismissNobody(e.reg, n);
      assert e.(reg := e.reg) == e;
    } else {
      var ts0 := s.reg.toasts;
      var ts1 := e.reg.toasts;
      var hit := fired * Ids(ts1);
      var due := DueIds(o, ts1, n);
      DueIdsMembers(o, ts1, n);
      assert hit <= due by {
        forall k | k in hit ensures k in due {
          PendingTimersMembers(o, ts0, s.now);
          var u :| u in ts0 && u.id == k;
          var v :| v in ts1 && v.id == k;
          KeptMembers(ts0, DueRemovals(s.reg.removals, n));
          SameIdSameToast(ts0, u, v);
          assert IsDue(o, v, n);
        }
      }
      var r2 := DismissIds(e.reg, fired, n);
      assert r2.toasts == Hidden(ts1, hit);
      DueIdsHidden(o, ts1, hit, n);
      DismissIdsUnion(e.reg, fired, due - hit, n);
      assert (fired + (due - hit)) * Ids(ts1) == due * Ids(ts1);
    }
  }

  /** A toast that was not due and comes due at the next millisecond has a
      timer that fires then. */
  lemma DueTimerFires(o: ToasterOptions, s: Sys, v: Toast)
    requires UniqueIds(s.reg.toasts) && Active(s) && DueIds(o, s.reg.toasts, s.now) == {}
    requires v in s.reg.toasts && IsDue(o, v, s.now + 1)
    ensures v.id in FiredTimers(Timers(o, s), s.now + 1)
  {
    DueIdOf(o, s.reg.toasts, s.now, v);
    TimersMeaning(o, s, v);
  }

  /** Hiding the toasts whose timers fire leaves nothing due at the next
      millisecond. */
  lemma FiredTimersLeaveNothingDue(o: ToasterOptions, s: Sys)
    requires UniqueIds(s.reg.toasts) && Active(s) && DueIds(o, s.reg.toasts, s.now) == {}
    ensures var ts1 := Elapsed(s).reg.toasts;
      DueIds(o, Hidden(ts1, FiredTimers(Timers(o, s), s.now + 1) * Ids(ts1)), s.now + 1) == {}
  {
    var n := s.now + 1;
    var ts1 := Elapsed(s).reg.toasts;
    var hit := FiredTimers(Timers(o, s), n) * Ids(ts1);
    var due := DueIds(o, ts1, n);
    assert due <= hit by {
      DueIdsMembers(o, ts1, n);
      KeptMembers(s.reg.toasts, DueRemovals(s.reg.removals, n));
      forall k | k in due ensures k in hit {
        var v :| v in ts1 && IsDue(o, v, n) && v.id == k;
        DueTimerFires(o, s, v);
      }
    }
    DueIdsHidden(o, ts1, hit, n);
  }

  /** Conversely, when the scheduler starts a tick with nothing due (as every
      reaction leaves it), the timers that fire already dismiss everything
      that comes due: the reaction that follows them changes nothing. */
  lemma TimersFiringSuffices(o: ToasterOptions, s: Sys)
    requires UniqueIds(s.reg.toasts)
    requires Active(s) ==> DueIds(o, s.reg.toasts, s.now) == {}
    ensures var e := Elapsed(s);
      var f := e.(reg := DismissIds(e.reg, FiredTimers(Timers(o, s), e.now), e.now));
      AfterSync(o, f) == f
  {
    var e := Elapsed(s);
    var f := e.(reg := DismissIds(e.reg, FiredTimers(Timers(o, s), e.now), e.now));
    if Active(s) {
      FiredTimersLeaveNothingDue(o, s);
      DismissNobody(f.reg, e.now);
    }
  }

  /** A tick that starts with nothing due is exactly: the due removals fire,
      then the dismissal timers that come due fire. */
  lemma TickIsTimerFiring(o: ToasterOptions, s: Sys)
    requires UniqueIds(s.reg.toasts)
    requires Active(s) ==> DueIds(o, s.reg.toasts, s.now) == {}
    ensures var e := Elapsed(s);
      AfterTick(o, s) == e.(reg := DismissIds(e.reg, FiredTimers(Timers(o, s), e.now), e.now))
  {
    TimersFiringRedundant(o, s);
    TimersFiringSuffices(o, s);
  }

  // ------------------------------------------------------------ many ticks

  /** Over `k` ticks a toast stays untouched while it is not due (or the
      scheduler is paused or unmounted throughout). */
  lemma {:induction false} AdvanceKeeps(o: ToasterOptions, s: Sys, t: Toast, k: nat)
    requires UniqueIds(s.reg.toasts) && t in s.reg.toasts && t.id !in s.reg.removals
    requires !Active(s) || !IsDue(o, t, s.now + k)
    ensures var a := AfterAdvance(o, s, k);
      UniqueIds(a.reg.toasts) && t in a.reg.toasts && t.id !in a.reg.removals &&
      a.now == s.now + k && a.reg.pausedAt == s.reg.pausedAt && a.mounted == s.mounted
    decreases k
  {
    if k > 0 {
      AdvanceKeeps(o, s, t, k - 1);
      TickKeeps(o, AfterAdvance(o, s, k - 1), t);
    }
  }

  /** While a removal is queued for a later instant, ticks keep it queued at
      that instant and keep its toast present. */
  lemma {:induction false} AdvanceKeepsRemoval(o: ToasterOptions, s: Sys, id: string, k: nat)
    requires id in s.reg.removals && s.now + k < s.reg.removals[id]
    ensures var a := AfterAdvance(o, s, k);
      a.now == s.now + k && id in a.reg.removals && a.reg.removals[id] == s.reg.removals[id] &&
      (id in Ids(s.reg.toasts) ==> id in Ids(a.reg.toasts))
    decreases k
  {
    if k > 0 {
      AdvanceKeepsRemoval(o, s, id, k - 1);
      TickKeepsRemoval(o, AfterAdvance(o, s, k - 1), id);
    }
  }

  /** A toast whose removal is queued `RemoveDelay` from now is still present
      one millisecond before that and gone at that instant. */
  lemma RemovedAfterDelay(o: ToasterOptions, s: Sys, id: string)
    requires id in Ids(s.reg.toasts) && id in s.reg.removals && s.reg.removals[id] == s.now + RemoveDelay
    ensures id in Ids(AfterAdvance(o, s, RemoveDelay - 1).reg.toasts)
    ensures id !in Ids(AfterAdvance(o, s, RemoveDelay).reg.toasts)
  {
    AdvanceKeepsRemoval(o, s, id, RemoveDelay - 1);
    TickRemoves(o, AfterAdvance(o, s, RemoveDelay - 1), id);
  }

  // ------------------------------------------------------------ scenarios

  /** A visible toast whose finite countdown runs out `k` ms from now, on an
      active scheduler, is still visible one millisecond before its deadline
      and hidden, its removal queued, at its deadline. */
  lemma DismissedAtDeadline(o: ToasterOptions, s: Sys, t: Toast, k: nat)
    requires UniqueIds(s.reg.toasts) && t in s.reg.toasts && t.visible && t.id !in s.reg.removals
    requires Active(s) && HasFiniteDuration(o, t) && k > 0 && Deadline(o, t) == s.now + k
    ensures t in AfterAdvance(o, s, k - 1).reg.toasts
    ensures var d := AfterAdvance(o, s, k);
      UniqueIds(d.reg.toasts) && t.(visible := false) in d.reg.toasts && d.now == Deadline(o, t) &&
      t.id in d.reg.removals && d.reg.removals[t.id] == Deadline(o, t) + RemoveDelay
  {
    AdvanceKeeps(o, s, t, k - 1);
    TickDismisses(o, AfterAdvance(o, s, k - 1), t);
  }

  /** The whole life of such a toast: visible until its deadline, hidden at
      its deadline, still present `RemoveDelay - 1` ms later and gone
      `RemoveDelay` ms later. */
  lemma FiniteLifecycle(o: ToasterOptions, s: Sys, t: Toast, k: nat)
    requires UniqueIds(s.reg.toasts) && t in s.reg.toasts && t.visible && t.id !in s.reg.removals
    requires Active(s) && HasFiniteDuration(o, t) && k > 0 && Deadline(o, t) == s.now + k
    ensures t in AfterAdvance(o, s, k - 1).reg.toasts
    ensures t.(visible := false) in AfterAdvance(o, s, k).reg.toasts
    ensures t.id in Ids(AfterAdvance(o, AfterAdvance(o, s, k), RemoveDelay - 1).reg.toasts)
    ensures t.id !in Ids(AfterAdvance(o, AfterAdvance(o, s, k), RemoveDelay).reg.toasts)
  {
    DismissedAtDeadline(o, s, t, k);
    var d := AfterAdvance(o, s, k);
    assert t.(visible := false) in d.reg.toasts;
    RemovedAfterDelay(o, d, t.id);
  }

  /** A toast whose effective duration is infinite is never dismissed and
      never gets a timer. */
  lemma InfiniteNeverDismissed(o: ToasterOptions, s: Sys, t: Toast, k: nat)
    requires UniqueIds(s.reg.toasts) && t in s.reg.toasts && t.id !in s.reg.removals
    requires EffectiveDuration(o, t) == Infinite
    ensures t in AfterAdvance(o, s, k).reg.toasts
    ensures t.id !in Timers(o, AfterAdvance(o, s, k))
  {
    AdvanceKeeps(o, s, t, k);
    TimersMeaning(o, AfterAdvance(o, s, k), t);
  }

  /** After teardown the scheduler holds no timer and dismisses nothing,
      however long the clock runs. */
  lemma TeardownStopsDismissals(o: ToasterOptions, s: Sys, t: Toast, k: nat)
    requires UniqueIds(s.reg.toasts) && t in s.reg.toasts && t.id !in s.reg.removals
    ensures t in AfterAdvance(o, AfterDestroy(s), k).reg.toasts
    ensures Timers(o, AfterAdvance(o, AfterDestroy(s), k)) == map[]
  {
    AdvanceKeeps(o, AfterDestroy(s), t, k);
  }

  /** Adding a toast whose deadline has already passed dismisses it at once. */
  lemma AddPastDeadline(o: ToasterOptions, s: Sys, t: Toast)
    requires UniqueIds(s.reg.toasts) && Active(s)
    requires t.id !in Ids(s.reg.toasts) && t.id !in s.reg.removals
    requires IsDue(o, t, s.now)
    ensures t.(visible := false) in AfterAdd(o, s, t).reg.toasts
    ensures AfterAdd(o, s, t).reg.removals[t.id] == s.now + RemoveDelay
  {
    AddedKeepsUnique(s.reg.toasts, t);
    SyncDismissesDue(o, s.(reg := s.reg.(toasts := Added(s.reg.toasts, t))), t);
  }

  /** Adding a toast whose countdown is still running arms a timer for its
      deadline and leaves it visible. */
  lemma AddArmsTimer(o: ToasterOptions, s: Sys, t: Toast)
    requires UniqueIds(s.reg.toasts) && Active(s)
    requires t.id !in Ids(s.reg.toasts) && t.id !in s.reg.removals
    requires IsPending(o, t, s.now)
    ensures t in AfterAdd(o, s, t).reg.toasts
    ensures t.id in Timers(o, AfterAdd(o, s, t)) && Timers(o, AfterAdd(o, s, t))[t.id] == Deadline(o, t)
  {
    var s1 := s.(reg := s.reg.(toasts := Added(s.reg.toasts, t)));
    AddedKeepsUnique(s.reg.toasts, t);
    SyncKeeps(o, s1, t);
    SyncFacts(o, s1);
    TimersMeaning(o, AfterAdd(o, s, t), t);
  }

  /** Pausing keeps every toast, anchors the pause at the current time and
      cancels every timer. */
  lemma StartPauseKeeps(o: ToasterOptions, s: Sys, t: Toast)
    requires UniqueIds(s.reg.toasts) && t in s.reg.toasts && t.id !in s.reg.removals && s.reg.pausedAt.None?
    ensures var p := AfterStartPause(o, s);
      UniqueIds(p.reg.toasts) && t in p.reg.toasts && t.id !in p.reg.removals &&
      p.reg.pausedAt == Some(s.now) && p.now == s.now && p.mounted == s.mounted &&
      Timers(o, p) == map[]
  {
    SyncKeeps(o, s.(reg := StartPaused(s.reg, s.now)), t);
  }

  /** Resuming after `q` paused milliseconds adds `q` to a toast's pause
      duration, which pushes its deadline back by `q`; the toast is not
      dismissed if that deadline lies ahead. */
  lemma EndPauseShifts(o: ToasterOptions, s: Sys, t: Toast, q: int)
    requires UniqueIds(s.reg.toasts) && t in s.reg.toasts && t.visible && t.id !in s.reg.removals
    requires s.reg.pausedAt == Some(s.now - q)
    requires HasFiniteDuration(o, t) && Deadline(o, t) + q > s.now
    ensures var e := AfterEndPause(o, s);
      var t' := t.(pauseDuration := t.pauseDuration + q);
      UniqueIds(e.reg.toasts) && t' in e.reg.toasts && t'.id !in e.reg.removals &&
      Deadline(o, t') == Deadline(o, t) + q &&
      e.reg.pausedAt.None? && e.now == s.now && e.mounted == s.mounted
  {
    var t' := t.(pauseDuration := t.pauseDuration + q);
    var e := EndPaused(s.reg, s.now);
    var i :| 0 <= i < |s.reg.toasts| && s.reg.toasts[i] == t;
    assert e.toasts[i] == t';
    EndPausedKeepsUnique(s.reg, s.now);
    SyncFacts(o, s.(reg := e));
    SyncKeeps(o, s.(reg := e), t');
  }

  /** Running `p` ms, pausing, and running `q` ms more keeps a toast that is
      not due within the first `p` ms; the pause stays anchored where it began. */
  lemma PausedInterval(o: ToasterOptions, s: Sys, t: Toast, p: nat, q: nat)
    requires UniqueIds(s.reg.toasts) && t in s.reg.toasts && t.id !in s.reg.removals
    requires Active(s) && !IsDue(o, t, s.now + p)
    ensures var s3 := AfterAdvance(o, AfterStartPause(o, AfterAdvance(o, s, p)), q);
      UniqueIds(s3.reg.toasts) && t in s3.reg.toasts && t.id !in s3.reg.removals &&
      s3.reg.pausedAt == Some(s.now + p) && s3.now == s.now + p + q && s3.mounted
  {
    AdvanceKeeps(o, s, t, p);
    var s1 := AfterAdvance(o, s, p);
    StartPauseKeeps(o, s1, t);
    AdvanceKeeps(o, AfterStartPause(o, s1), t, q);
  }

  /** A paused interval does not count: a toast paused for `q` ms after `p` ms
      of its countdown, with `rest` ms of it left, has after the resume its
      pause duration grown by `q`; it is still visible one ms before the
      remaining `rest` ms have run and dismissed when they have. */
  lemma PauseDoesNotCount(o: ToasterOptions, s: Sys, t: Toast, p: nat, q: nat, rest: nat)
    requires UniqueIds(s.reg.toasts) && t in s.reg.toasts && t.visible && t.id !in s.reg.removals
    requires Active(s) && HasFiniteDuration(o, t) && rest > 0 && Deadline(o, t) == s.now + p + rest
    ensures var resumed := AfterEndPause(o, AfterAdvance(o, AfterStartPause(o, AfterAdvance(o, s, p)), q));
      var t' := t.(pauseDuration := t.pauseDuration + q);
      t' in resumed.reg.toasts &&
      t' in AfterAdvance(o, resumed, rest - 1).reg.toasts &&
      t'.(visible := false) in AfterAdvance(o, resumed, rest).reg.toasts
  {
    PausedInterval(o, s, t, p, q);
    var s3 := AfterAdvance(o, AfterStartPause(o, AfterAdvance(o, s, p)), q);
    EndPauseShifts(o, s3, t, q);
    var resumed := AfterEndPause(o, s3);
    DismissedAtDeadline(o, resumed, t.(pauseDuration := t.pauseDuration + q), rest);
  }

  // ------------------------------------------------------------ the scheduler object

  class Toaster {
    const store: Store
    const options: ToasterOptions
    var now: int
    var timers: map<string, int>
    var mounted: bool

    function State(): Sys
      reads this, store
    {
      Sys(store.Reg(), now, mounted)
    }

    /** The store keeps its cap, ids are unique, the timers held are those
        `Timers` describes, and while active no countdown has run out
        without its toast being dismissed. */
    ghost predicate Valid()
      reads this, store
    {
      store.Valid() && UniqueIds(store.toasts) && timers == Timers(options, State()) &&
      (Active(State()) ==> DueIds(options, store.toasts, now) == {})
    }

    /** `useToaster(options)` at time `now`: mount and react to the current
        snapshot. */
    constructor (store: Store, options: ToasterOptions, now: int)
      requires store.Valid() && UniqueIds(store.toasts)
      modifies store
      ensures this.store == store && this.options == options
      ensures Valid() && State() == AfterSync(options, Sys(old(store.Reg()), now, true))
    {
      this.store := store;
      this.options := options;
      this.now := now;
      timers := map[];
      mounted := true;
      new;
      Sync();
    }

    /** The snapshot subscription: dismiss every due toast, one call at a
        time, and replace the timers with one per running countdown. */
    method Sync()
      requires store.Valid() && UniqueIds(store.toasts)
      modifies this, store
      ensures Valid() && State() == AfterSync(options, old(State()))
    {
      if !mounted || store.pausedAt.Some? {
        timers := map[];
        return;
      }
      var ts := store.toasts;
      var pending: map<string, int> := map[];
      DismissNobody(store.Reg(), now);
      var i := 0;
      while i < |ts|
        invariant 0 <= i <= |ts|
        invariant store.Reg() == DismissIds(old(store.Reg()), DueIds(options, ts[..i], now), now)
        invariant pending == PendingTimers(options, ts[..i], now)
        invariant now == old(now) && mounted == old(mounted)
        invariant store.Valid()
      {
        var t := ts[i];
        if IsDue(options, t, now) {
          SyncStepDue(options, old(store.Reg()), ts, i, now);
          store.Dismiss(Some(t.id), now);
        } else {
          SyncStepOther(options, ts, i, now);
          if IsPending(options, t, now) {
            pending := pending[t.id := Deadline(options, t)];
          }
        }
        i := i + 1;
      }
      assert ts[..|ts|] == ts;
      timers := pending;
      SyncFacts(options, old(State()));
    }

    /** One millisecond of the clock: the due removals fire, then the due
        dismissal timers, then the subscription reacts. */
    method Tick()
      requires Valid()
      modifies this, store
      ensures Valid() && State() == AfterTick(options, old(State()))
    {
      ghost var s := State();
      now := now + 1;
      store.FireRemovals(now);
      ElapsedKeepsUnique(s);
      var fired := FiredTimers(timers, now);
      var due := fired;
      ghost var done: set<string> := {};
      ghost var r1 := store.Reg();
      DismissNobody(r1, now);
      while due != {}
        invariant done + due == fired && done !! due
        invariant store.Reg() == DismissIds(r1, done, now)
        invariant now == old(now) + 1 && timers == old(timers) && mounted == old(mounted)
        invariant store.Valid()
        decreases due
      {
        var id :| id in due;
        DismissIdsUnion(r1, done, {id}, now);
        store.Dismiss(Some(id), now);
        due := due - {id};
        done := done + {id};
      }
      timers := timers - fired;
      DismissKeepsUnique(r1, fired, now);
      Sync();
      TimersFiringRedundant(options, s);
    }

    /** The clock runs for `dt` milliseconds. */
    method Advance(dt: nat)
      requires Valid()
      modifies this, store
      ensures Valid() && State() == AfterAdvance(options, old(State()), dt)
    {
      var i := 0;
      while i < dt
        invariant 0 <= i <= dt
        invariant Valid() && State() == AfterAdvance(options, old(State()), i)
      {
        Tick();
        i := i + 1;
      }
    }

    /** `add` on the watched registry, with the subscription's reaction. */
    method Add(t: Toast)
      requires Valid() && t.id !in Ids(store.toasts)
      modifies this, store
      ensures Valid() && State() == AfterAdd(options, old(State()), t)
    {
      AddedKeepsUnique(store.toasts, t);
      store.Add(t);
      Sync();
    }

    /** The `startPause` handler: pause at the current time. */
    method StartPause()
      requires Valid()
      modifies this, store
      ensures Valid() && State() == AfterStartPause(options, old(State()))
    {
      store.StartPause(now);
      Sync();
    }

    /** The `endPause` handler: resume at the current time. */
    method EndPause()
      requires Valid()
      modifies this, store
      ensures Valid() && State() == AfterEndPause(options, old(State()))
    {
      EndPausedKeepsUnique(store.Reg(), now);
      store.EndPause(now);
      Sync();
    }

    /** The `updateHeight` handler: record a measured height. */
    method UpdateHeight(id: string, height: int)
      requires Valid()
      modifies this, store
      ensures Valid()
      ensures State() == AfterSync(options, old(State()).(reg := old(store.Reg()).(
        toasts := Updated(old(store.toasts), EmptyPatch(id).(height := Some(height))))))
    {
      UpdatedKeepsUnique(store.toasts, EmptyPatch(id).(height := Some(height)));
      store.Update(EmptyPatch(id).(height := Some(height)));
      Sync();
    }

    /** Teardown: cancel every timer; nothing is scheduled afterwards. */
    method Destroy()
      requires Valid()
      modifies this
      ensures Valid() && State() == AfterDestroy(old(State()))
    {
      timers := map[];
      mounted := false;
    }
  }
}
