/** The toast registry: a bounded newest-first list of toasts, the pause
    anchor, and the queue of removals that follow a dismissal. The pure
    functions on `Registry` specify the operations; the class `Store` holds
    the same state in fields and changes it in place. */
module Store {
  import opened Types
  import opened Text

  /** The registry never holds more toasts than this. */
  const ToastLimit: nat := 20

  /** A dismissed toast is removed this many milliseconds later. */
  const RemoveDelay: int := 1000

  /** The whole registry state: the toasts, the pause anchor (present while
      paused) and, per toast id, the time its pending removal fires. */
  datatype Registry = Registry(toasts: seq<Toast>, pausedAt: Option<int>, removals: map<string, int>)

  function Min(a: int, b: int): int {
    if a <= b then a else b
  }

  function Ids(ts: seq<Toast>): set<string> {
    set t | t in ts :: t.id
  }

  predicate UniqueIds(ts: seq<Toast>) {
    forall i, j :: 0 <= i < j < |ts| ==> ts[i].id != ts[j].id
  }

  // ---------------------------------------------------------------- add

  /** `add`: the new toast goes in front, the oldest beyond the cap drop out. */
  function Added(ts: seq<Toast>, t: Toast): (r: seq<Toast>)
    ensures |r| == Min(|ts| + 1, ToastLimit)
    ensures r[0] == t
    ensures forall i :: 1 <= i < |r| ==> r[i] == ts[i - 1]
  {
    ([t] + ts)[..Min(|ts| + 1, ToastLimit)]
  }

  /** A run of `add`s, in call order. */
  function AddedAll(ts: seq<Toast>, xs: seq<Toast>): seq<Toast>
    decreases |xs|
  {
    if xs == [] then ts else Added(AddedAll(ts, xs[..|xs| - 1]), xs[|xs| - 1])
  }

  /** After any run of `add`s on an empty registry, it holds the last
      `ToastLimit` toasts added, the most recent first. */
  lemma {:induction false} AddedAllNewestFirst(xs: seq<Toast>)
    ensures |AddedAll([], xs)| == Min(|xs|, ToastLimit)
    ensures forall i :: 0 <= i < |AddedAll([], xs)| ==> AddedAll([], xs)[i] == xs[|xs| - 1 - i]
    decreases |xs|
  {
    if xs != [] {
      var init := xs[..|xs| - 1];
      AddedAllNewestFirst(init);
      var r := AddedAll([], xs);
      forall i | 0 <= i < |r| ensures r[i] == xs[|xs| - 1 - i] {
        if i > 0 {
          assert r[i] == AddedAll([], init)[i - 1];
        }
      }
    }
  }

  /** Twenty-five adds keep twenty: the 25th in front, the 6th at the back. */
  lemma AddTwentyFive(xs: seq<Toast>)
    requires |xs| == 25
    ensures |AddedAll([], xs)| == 20
    ensures AddedAll([], xs)[0] == xs[24]
    ensures AddedAll([], xs)[19] == xs[5]
  {
    AddedAllNewestFirst(xs);
  }

  /** `add` of a fresh id keeps ids unique. */
  lemma AddedKeepsUnique(ts: seq<Toast>, t: Toast)
    requires UniqueIds(ts) && t.id !in Ids(ts)
    ensures UniqueIds(Added(ts, t))
  {
    var r := Added(ts, t);
    forall i, j | 0 <= i < j < |r| ensures r[i].id != r[j].id {
      if i == 0 {
        assert ts[j - 1] in ts;
      }
    }
  }

  // ---------------------------------------------------------------- update / upsert

  /** `update`: the patch is merged into every toast with its id. */
  function Updated(ts: seq<Toast>, p: Patch): seq<Toast> {
    seq(|ts|, i requires 0 <= i < |ts| => if ts[i].id == p.id then Apply(ts[i], p) else ts[i])
  }

  /** `update` changes no id and no toast of another id, merges the patch
      into the toast whose id it names, and is a no-op for an unknown id. */
  lemma UpdatedPatchesOnlyItsId(ts: seq<Toast>, p: Patch)
    ensures |Updated(ts, p)| == |ts|
    ensures forall i :: 0 <= i < |ts| ==> Updated(ts, p)[i].id == ts[i].id
    ensures forall i :: 0 <= i < |ts| && ts[i].id != p.id ==> Updated(ts, p)[i] == ts[i]
    ensures forall i :: 0 <= i < |ts| && ts[i].id == p.id ==> Updated(ts, p)[i] == Apply(ts[i], p)
    ensures Ids(Updated(ts, p)) == Ids(ts)
    ensures p.id !in Ids(ts) ==> Updated(ts, p) == ts
  {
    var r := Updated(ts, p);
    forall x | x in Ids(ts) ensures x in Ids(r) {
      var i :| 0 <= i < |ts| && ts[i].id == x;
      assert r[i] in r;
    }
    forall x | x in Ids(r) ensures x in Ids(ts) {
      var i :| 0 <= i < |r| && r[i].id == x;
      assert ts[i] in ts;
    }
    if p.id !in Ids(ts) {
      forall i | 0 <= i < |ts| ensures r[i] == ts[i] {
        assert ts[i] in ts;
      }
    }
  }

  /** `upsert`: merge into the toast with the same id, or add a new one. */
  function Upserted(ts: seq<Toast>, t: Toast): seq<Toast> {
    if t.id in Ids(ts) then Updated(ts, FullPatch(t)) else Added(ts, t)
  }

  /** `upsert` of a present id keeps the size and the ids and overwrites the
      truthy fields of that toast; of an absent id it puts the toast in front. */
  lemma UpsertedSemantics(ts: seq<Toast>, t: Toast)
    ensures t.id in Ids(ts) ==>
      |Upserted(ts, t)| == |ts| && Ids(Upserted(ts, t)) == Ids(ts) &&
      forall i :: 0 <= i < |ts| ==>
        var u := Upserted(ts, t)[i];
        if ts[i].id == t.id then
          u == Apply(ts[i], FullPatch(t)) &&
          u.id == t.id && u.toastType == t.toastType && u.ariaProps == t.ariaProps &&
          u.message == (if t.message != "" then t.message else ts[i].message) &&
          u.createdAt == (if t.createdAt != 0 then t.createdAt else ts[i].createdAt) &&
          u.visible == (t.visible || ts[i].visible) &&
          u.pauseDuration == (if t.pauseDuration != 0 then t.pauseDuration else ts[i].pauseDuration)
        else u == ts[i]
    ensures t.id !in Ids(ts) ==> Upserted(ts, t) == Added(ts, t) && Upserted(ts, t)[0] == t
  {
    UpdatedPatchesOnlyItsId(ts, FullPatch(t));
    forall i | 0 <= i < |ts| && ts[i].id == t.id {
      FullPatchOverrides(ts[i], t);
    }
  }

  /** `upsert` never introduces a second toast with the same id. */
  lemma UpsertedKeepsUnique(ts: seq<Toast>, t: Toast)
    requires UniqueIds(ts)
    ensures UniqueIds(Upserted(ts, t))
  {
    if t.id in Ids(ts) {
      UpdatedPatchesOnlyItsId(ts, FullPatch(t));
    } else {
      AddedKeepsUnique(ts, t);
    }
  }

  // ---------------------------------------------------------------- dismiss

  /** Hides every toast whose id is in `ids`. */
  function Hidden(ts: seq<Toast>, ids: set<string>): seq<Toast> {
    seq(|ts|, i requires 0 <= i < |ts| => if ts[i].id in ids then ts[i].(visible := false) else ts[i])
  }

  /** Queues a removal at `at` for every id in `ids` not already queued; an
      id already queued keeps its earlier time. */
  function Armed(q: map<string, int>, ids: set<string>, at: int): map<string, int> {
    map k | k in q.Keys + ids :: if k in q then q[k] else at
  }

  /** Dismisses the present toasts among `ids` at time `now`. */
  function DismissIds(r: Registry, ids: set<string>, now: int): Registry {
    var hit := ids * Ids(r.toasts);
    r.(toasts := Hidden(r.toasts, hit), removals := Armed(r.removals, hit, now + RemoveDelay))
  }

  /** `dismiss(id)`, or `dismiss()` for every toast, at time `now`. */
  function Dismissed(r: Registry, id: Option<string>, now: int): Registry {
    DismissIds(r, if id.Some? then {id.value} else Ids(r.toasts), now)
  }

  lemma HiddenFacts(ts: seq<Toast>, ids: set<string>)
    ensures |Hidden(ts, ids)| == |ts|
    ensures Ids(Hidden(ts, ids)) == Ids(ts)
    ensures forall i :: 0 <= i < |ts| ==> Hidden(ts, ids)[i].id == ts[i].id
    ensures UniqueIds(ts) ==> UniqueIds(Hidden(ts, ids))
  {
    var h := Hidden(ts, ids);
    forall x | x in Ids(ts) ensures x in Ids(h) {
      var i :| 0 <= i < |ts| && ts[i].id == x;
      assert h[i] in h;
    }
    forall x | x in Ids(h) ensures x in Ids(ts) {
      var i :| 0 <= i < |h| && h[i].id == x;
      assert ts[i] in ts;
    }
  }

  /** Dismissal hides exactly the named present toasts, keeps every toast
      present, and queues each newly dismissed id for removal `RemoveDelay`
      after `now`. */
  lemma DismissIdsSemantics(r: Registry, ids: set<string>, now: int)
    ensures var d := DismissIds(r, ids, now);
      |d.toasts| == |r.toasts| && Ids(d.toasts) == Ids(r.toasts) && d.pausedAt == r.pausedAt &&
      (forall i :: 0 <= i < |r.toasts| ==>
        d.toasts[i] == if r.toasts[i].id in ids then r.toasts[i].(visible := false) else r.toasts[i]) &&
      (forall k :: k in d.removals <==> k in r.removals || k in ids * Ids(r.toasts)) &&
      (forall k :: k in r.removals ==> d.removals[k] == r.removals[k]) &&
      (forall k :: k in ids * Ids(r.toasts) && k !in r.removals ==> d.removals[k] == now + RemoveDelay)
  {
    HiddenFacts(r.toasts, ids * Ids(r.toasts));
    var d := DismissIds(r, ids, now);
    forall i | 0 <= i < |r.toasts|
      ensures d.toasts[i] == if r.toasts[i].id in ids then r.toasts[i].(visible := false) else r.toasts[i]
    {
      assert r.toasts[i] in r.toasts;
    }
  }

  /** Dismissing one set of ids after another is dismissing their union. */
  lemma DismissIdsUnion(r: Registry, a: set<string>, b: set<string>, now: int)
    ensures DismissIds(DismissIds(r, a, now), b, now) == DismissIds(r, a + b, now)
  {
    var ids := Ids(r.toasts);
    HiddenFacts(r.toasts, a * ids);
    HiddenUnion(r.toasts, a * ids, b * ids);
    ArmedUnion(r.removals, a * ids, b * ids, now + RemoveDelay);
    assert a * ids + b * ids == (a + b) * ids;
  }

  lemma HiddenUnion(ts: seq<Toast>, a: set<string>, b: set<string>)
    ensures Hidden(Hidden(ts, a), b) == Hidden(ts, a + b)
  {
  }

  lemma ArmedUnion(q: map<string, int>, a: set<string>, b: set<string>, at: int)
    ensures Armed(Armed(q, a, at), b, at) == Armed(q, a + b, at)
  {
    assert Armed(Armed(q, a, at), b, at).Keys == Armed(q, a + b, at).Keys;
  }

  /** Dismissing nobody changes nothing. */
  lemma DismissNobody(r: Registry, now: int)
    ensures DismissIds(r, {}, now) == r
  {
    var d := DismissIds(r, {}, now);
    assert d.toasts == r.toasts;
    assert d.removals == r.removals;
  }

  // ---------------------------------------------------------------- remove

  /** The toasts whose id is not in `ids`, in their order. */
  function Kept(ts: seq<Toast>, ids: set<string>): (r: seq<Toast>)
    ensures |r| <= |ts|
    decreases |ts|
  {
    if ts == [] then []
    else if ts[0].id in ids then Kept(ts[1..], ids)
    else [ts[0]] + Kept(ts[1..], ids)
  }

  /** Filtering keeps exactly the toasts whose id is not filtered. */
  lemma {:induction false} KeptMembers(ts: seq<Toast>, ids: set<string>)
    ensures forall t :: t in Kept(ts, ids) <==> t in ts && t.id !in ids
    decreases |ts|
  {
    if ts != [] {
      KeptMembers(ts[1..], ids);
      assert ts == [ts[0]] + ts[1..];
    }
  }

  /** Filtering keeps the relative order: it works piecewise on a concatenation. */
  lemma {:induction false} KeptAppend(a: seq<Toast>, b: seq<Toast>, ids: set<string>)
    ensures Kept(a + b, ids) == Kept(a, ids) + Kept(b, ids)
    decreases |a|
  {
    if a == [] {
      assert a + b == b;
    } else {
      assert (a + b)[0] == a[0];
      assert (a + b)[1..] == a[1..] + b;
      KeptAppend(a[1..], b, ids);
    }
  }

  /** `remove(id)` deletes that toast, `remove()` clears the registry. */
  function Removed(ts: seq<Toast>, id: Option<string>): seq<Toast> {
    if id.Some? then Kept(ts, {id.value}) else []
  }

  /** Removing one id after a set is removing the union. */
  lemma {:induction false} KeptUnion(ts: seq<Toast>, a: set<string>, x: string)
    ensures Kept(Kept(ts, a), {x}) == Kept(ts, a + {x})
    decreases |ts|
  {
    if ts != [] {
      KeptUnion(ts[1..], a, x);
    }
  }

  /** Filtering drops exactly the filtered ids. */
  lemma KeptIds(ts: seq<Toast>, ids: set<string>)
    ensures Ids(Kept(ts, ids)) == Ids(ts) - ids
  {
    var k := Kept(ts, ids);
    KeptMembers(ts, ids);
    forall x | x in Ids(ts) - ids ensures x in Ids(k) {
      var t :| t in ts && t.id == x;
      assert t in k;
    }
  }

  /** Filtering by no id keeps everything. */
  lemma {:induction false} KeptNothing(ts: seq<Toast>)
    ensures Kept(ts, {}) == ts
    decreases |ts|
  {
    if ts != [] {
      KeptNothing(ts[1..]);
    }
  }

  /** Filtering by a superset of the ids present keeps nothing. */
  lemma {:induction false} KeptEverything(ts: seq<Toast>, ids: set<string>)
    requires Ids(ts) <= ids
    ensures Kept(ts, ids) == []
    decreases |ts|
  {
    if ts != [] {
      assert ts[0] in ts;
      assert Ids(ts[1..]) <= Ids(ts) by {
        forall x | x in Ids(ts[1..]) ensures x in Ids(ts) {
          var t :| t in ts[1..] && t.id == x;
          assert t in ts;
        }
      }
      KeptEverything(ts[1..], ids);
    }
  }

  lemma UniqueTail(ts: seq<Toast>)
    requires ts != [] && UniqueIds(ts)
    ensures UniqueIds(ts[1..]) && ts[0].id !in Ids(ts[1..])
  {
    forall i, j | 0 <= i < j < |ts| - 1 ensures ts[1..][i].id != ts[1..][j].id {
      assert ts[1..][i] == ts[i + 1] && ts[1..][j] == ts[j + 1];
    }
    forall t | t in ts[1..] ensures t.id != ts[0].id {
      var k :| 0 <= k < |ts[1..]| && ts[1..][k] == t;
      assert ts[k + 1] == t;
    }
  }

  /** Filtering keeps ids unique. */
  lemma {:induction false} KeptUnique(ts: seq<Toast>, ids: set<string>)
    requires UniqueIds(ts)
    ensures UniqueIds(Kept(ts, ids))
    decreases |ts|
  {
    if ts != [] {
      UniqueTail(ts);
      KeptUnique(ts[1..], ids);
      KeptMembers(ts[1..], ids);
      var rest := Kept(ts[1..], ids);
      if ts[0].id !in ids {
        var r := [ts[0]] + rest;
        forall i, j | 0 <= i < j < |r| ensures r[i].id != r[j].id {
          if i == 0 {
            assert r[j] in rest;
          } else {
            assert r[i] == rest[i - 1] && r[j] == rest[j - 1];
          }
        }
      }
    }
  }

  /** `remove(id)` keeps every toast of another id and only those. */
  lemma RemovedSemantics(ts: seq<Toast>, id: Option<string>)
    ensures id.None? ==> Removed(ts, id) == []
    ensures id.Some? ==> forall t :: t in Removed(ts, id) <==> t in ts && t.id != id.value
    ensures id.Some? ==> Ids(Removed(ts, id)) == Ids(ts) - {id.value}
  {
    if id.Some? {
      KeptIds(ts, {id.value});
      KeptMembers(ts, {id.value});
    }
  }

  /** The removals due by `now`. */
  function DueRemovals(q: map<string, int>, now: int): set<string> {
    set k | k in q && q[k] <= now
  }

  /** The removal timers that have come due by `now` fire: their toasts
      leave the registry and their entries leave the queue. */
  function RemovalsFired(r: Registry, now: int): Registry {
    var due := DueRemovals(r.removals, now);
    r.(toasts := Kept(r.toasts, due), removals := r.removals - due)
  }

  /** A dismissed toast is still present `RemoveDelay - 1` ms later and gone
      after `RemoveDelay` ms. */
  lemma DismissThenRemoveTiming(r: Registry, id: string, now: int)
    requires id in Ids(r.toasts) && id !in r.removals
    ensures var d := Dismissed(r, Some(id), now);
      (forall t :: t in d.toasts && t.id == id ==> !t.visible) &&
      id in Ids(RemovalsFired(d, now + RemoveDelay - 1).toasts) &&
      id !in Ids(RemovalsFired(d, now + RemoveDelay).toasts)
  {
    var d := Dismissed(r, Some(id), now);
    DismissIdsSemantics(r, {id}, now);
    forall t | t in d.toasts && t.id == id ensures !t.visible {
      var i :| 0 <= i < |d.toasts| && d.toasts[i] == t;
    }
    KeptIds(d.toasts, DueRemovals(d.removals, now + RemoveDelay - 1));
    KeptIds(d.toasts, DueRemovals(d.removals, now + RemoveDelay));
  }

  /** A queued removal belongs to the id: a toast dismissed and then shown
      again by an upsert with the same id is visible meanwhile, and is still
      removed when the dismissal's timer fires. */
  lemma ReshownStillRemoved(r: Registry, t: Toast, now: int)
    requires t.id in Ids(r.toasts) && t.id !in r.removals
    ensures var d := Dismissed(r, Some(t.id), now);
      var u := d.(toasts := Upserted(d.toasts, t));
      t.id in Ids(u.toasts) && (t.visible ==> forall v :: v in u.toasts && v.id == t.id ==> v.visible) &&
      t.id in u.removals && u.removals[t.id] == now + RemoveDelay &&
      t.id !in Ids(RemovalsFired(u, now + RemoveDelay).toasts)
  {
    var d := Dismissed(r, Some(t.id), now);
    DismissIdsSemantics(r, {t.id}, now);
    var u := d.(toasts := Upserted(d.toasts, t));
    UpsertedSemantics(d.toasts, t);
    forall v | v in u.toasts && v.id == t.id && t.visible ensures v.visible {
      var i :| 0 <= i < |u.toasts| && u.toasts[i] == v;
    }
    KeptIds(u.toasts, DueRemovals(u.removals, now + RemoveDelay));
  }

  /** `dismiss()` hides every toast, and once the removals queued by then
      (its own, 1000 ms later, and any earlier ones) have fired the registry
      is empty. */
  lemma DismissAllThenEmpty(r: Registry, now: int)
    requires forall k :: k in r.removals ==> r.removals[k] <= now + RemoveDelay
    ensures var d := Dismissed(r, None, now);
      (forall t :: t in d.toasts ==> !t.visible) &&
      RemovalsFired(d, now + RemoveDelay).toasts == [] &&
      RemovalsFired(d, now + RemoveDelay).removals == map[]
  {
    var d := Dismissed(r, None, now);
    DismissIdsSemantics(r, Ids(r.toasts), now);
    forall t | t in d.toasts ensures !t.visible {
      var i :| 0 <= i < |d.toasts| && d.toasts[i] == t;
      assert r.toasts[i] in r.toasts;
    }
    var f := RemovalsFired(d, now + RemoveDelay);
    var due := DueRemovals(d.removals, now + RemoveDelay);
    assert due == d.removals.Keys;
    assert Ids(d.toasts) <= due;
    KeptEverything(d.toasts, due);
    assert f.removals == map[];
  }

  // ---------------------------------------------------------------- pause clock

  /** `startPause(time)`: anchor the pause at `time` unless already paused. */
  function StartPaused(r: Registry, time: int): Registry {
    if r.pausedAt.None? then r.(pausedAt := Some(time)) else r
  }

  /** Adds `d` to the pause duration of every toast. */
  function Shifted(ts: seq<Toast>, d: int): seq<Toast> {
    seq(|ts|, i requires 0 <= i < |ts| => ts[i].(pauseDuration := ts[i].pauseDuration + d))
  }

  /** `endPause(time)`: credit the time since the anchor to every toast and
      clear the anchor; a no-op when not paused. */
  function EndPaused(r: Registry, time: int): Registry {
    if r.pausedAt.Some? then r.(toasts := Shifted(r.toasts, time - r.pausedAt.value), pausedAt := None)
    else r
  }

  /** A pause from `t1` to `t2` adds exactly `t2 - t1` to every toast's pause
      duration, changes nothing else in it, and clears the anchor. */
  lemma PauseWindow(r: Registry, t1: int, t2: int)
    requires r.pausedAt.None?
    ensures var e := EndPaused(StartPaused(r, t1), t2);
      e.pausedAt.None? && e.removals == r.removals && |e.toasts| == |r.toasts| &&
      forall i :: 0 <= i < |r.toasts| ==>
        e.toasts[i] == r.toasts[i].(pauseDuration := r.toasts[i].pauseDuration + (t2 - t1))
  {
  }

  /** A second `startPause` while paused does not move the anchor. */
  lemma StartPauseIdempotent(r: Registry, t1: int, t2: int)
    ensures StartPaused(StartPaused(r, t1), t2) == StartPaused(r, t1)
  {
  }

  /** Pause durations never decrease when a pause ends no earlier than it began. */
  lemma PauseDurationMonotone(r: Registry, time: int)
    requires r.pausedAt.Some? ==> r.pausedAt.value <= time
    ensures |EndPaused(r, time).toasts| == |r.toasts|
    ensures forall i :: 0 <= i < |r.toasts| ==>
      EndPaused(r, time).toasts[i].pauseDuration >= r.toasts[i].pauseDuration
  {
  }

  /** The store's own example: a pause from 100 to 160 turns 10 into 70. */
  lemma PauseExample(t: Toast)
    requires t.pauseDuration == 10
    ensures EndPaused(StartPaused(Registry([t], None, map[]), 100), 160).toasts[0].pauseDuration == 70
    ensures EndPaused(StartPaused(Registry([t], None, map[]), 100), 160).pausedAt == None
  {
  }

  // ---------------------------------------------------------------- useToasterStore

  /** Options specific to one toast type. */
  datatype TypeOptions = TypeOptions(duration: Option<Duration>, style: Option<string>)

  /** The options given to `useToasterStore`. */
  datatype ToasterOptions = ToasterOptions(
    duration: Option<Duration>,
    style: Option<string>,
    className: Option<string>,
    byType: map<ToastType, TypeOptions>)

  /** Built-in per-type durations, used when nothing else gives one. */
  function DefaultDuration(k: ToastType): Duration {
    match k
    case Blank => Finite(4000)
    case Success => Finite(2000)
    case Error => Finite(4000)
    case Loading => Infinite
    case Custom => Finite(4000)
  }

  function TypeDuration(o: ToasterOptions, k: ToastType): Option<Duration> {
    if k in o.byType then o.byType[k].duration else None
  }

  function TypeStyle(o: ToasterOptions, k: ToastType): Option<string> {
    if k in o.byType then o.byType[k].style else None
  }

  /** Effective duration: the toast's own, else its type's, else the global
      one, else the built-in default for its type. */
  function EffectiveDuration(o: ToasterOptions, t: Toast): Duration {
    if t.duration.Some? then t.duration.value
    else if TypeDuration(o, t.toastType).Some? then TypeDuration(o, t.toastType).value
    else o.duration.GetOr(DefaultDuration(t.toastType))
  }

  /** Effective style: global, then type-specific, then the toast's own,
      concatenated so that later declarations win. */
  function EffectiveStyle(o: ToasterOptions, t: Toast): string {
    o.style.GetOr("") + TypeStyle(o, t.toastType).GetOr("") + t.style.GetOr("")
  }

  /** Effective class name: the global and the toast's own, space separated. */
  function EffectiveClassName(o: ToasterOptions, t: Toast): Option<string> {
    match (o.className, t.className)
    case (Some(g), Some(c)) => Some(g + " " + c)
    case (Some(g), None) => Some(g)
    case (None, c) => c
  }

  function Merged(o: ToasterOptions, t: Toast): Toast {
    t.(duration := Some(EffectiveDuration(o, t)),
       style := Some(EffectiveStyle(o, t)),
       className := EffectiveClassName(o, t))
  }

  /** `useToasterStore(options)`: the toasts with their effective settings. */
  function MergedToasts(o: ToasterOptions, ts: seq<Toast>): seq<Toast> {
    seq(|ts|, i requires 0 <= i < |ts| => Merged(o, ts[i]))
  }

  /** Duration precedence: toast over type over global over built-in. */
  lemma DurationPrecedence(o: ToasterOptions, t: Toast)
    ensures t.duration.Some? ==> EffectiveDuration(o, t) == t.duration.value
    ensures t.duration.None? && t.toastType in o.byType && o.byType[t.toastType].duration.Some? ==>
      EffectiveDuration(o, t) == o.byType[t.toastType].duration.value
    ensures t.duration.None? && TypeDuration(o, t.toastType).None? && o.duration.Some? ==>
      EffectiveDuration(o, t) == o.duration.value
    ensures t.duration.None? && TypeDuration(o, t.toastType).None? && o.duration.None? ==>
      EffectiveDuration(o, t) == DefaultDuration(t.toastType)
  {
  }

  /** The merged style contains the global, type and toast styles in that
      order: the global one as a prefix, the toast's own as a suffix. */
  lemma StyleContainsAll(o: ToasterOptions, t: Toast)
    ensures var s := EffectiveStyle(o, t);
      Contains(s, o.style.GetOr("")) && Contains(s, TypeStyle(o, t.toastType).GetOr("")) &&
      Contains(s, t.style.GetOr("")) &&
      IsPrefix(o.style.GetOr(""), s) &&
      s[|s| - |t.style.GetOr("")|..] == t.style.GetOr("")
  {
    ContainsParts(o.style.GetOr(""), TypeStyle(o, t.toastType).GetOr(""), t.style.GetOr(""));
  }

  /** Merging keeps the list's order and every toast's identity and content. */
  lemma MergedKeepsToasts(o: ToasterOptions, ts: seq<Toast>)
    ensures |MergedToasts(o, ts)| == |ts|
    ensures forall i :: 0 <= i < |ts| ==>
      var m := MergedToasts(o, ts)[i];
      m.id == ts[i].id && m.toastType == ts[i].toastType && m.message == ts[i].message &&
      m.visible == ts[i].visible && m.createdAt == ts[i].createdAt &&
      m.pauseDuration == ts[i].pauseDuration && m.duration.Some? &&
      (o.className.None? ==> m.className == ts[i].className)
  {
  }

  /** The store's example: a success toast with its own style and class,
      merged with a global duration and style and a success block. */
  lemma MergeExample(t: Toast)
    requires t.toastType == Success && t.duration.None?
    requires t.style == Some("color: red;") && t.className == Some("toast-class")
    ensures var o := ToasterOptions(Some(Finite(5000)), Some("padding: 2px;"), None,
                                    map[Success := TypeOptions(Some(Finite(900)), Some("font-weight: bold;"))]);
      var m := MergedToasts(o, [t])[0];
      m.duration == Some(Finite(900)) && m.className == Some("toast-class") &&
      Contains(m.style.value, "padding: 2px;") && Contains(m.style.value, "font-weight: bold;") &&
      Contains(m.style.value, "color: red;")
  {
    var o := ToasterOptions(Some(Finite(5000)), Some("padding: 2px;"), None,
                            map[Success := TypeOptions(Some(Finite(900)), Some("font-weight: bold;"))]);
    StyleContainsAll(o, t);
  }

  // ---------------------------------------------------------------- the cap

  /** No registry operation takes the registry beyond `ToastLimit` toasts. */
  lemma CapPreserved(r: Registry, t: Toast, p: Patch, ids: set<string>, id: Option<string>, time: int)
    requires |r.toasts| <= ToastLimit
    ensures |Added(r.toasts, t)| <= ToastLimit
    ensures |Updated(r.toasts, p)| <= ToastLimit
    ensures |Upserted(r.toasts, t)| <= ToastLimit
    ensures |DismissIds(r, ids, time).toasts| <= ToastLimit
    ensures |Removed(r.toasts, id)| <= ToastLimit
    ensures |StartPaused(r, time).toasts| <= ToastLimit
    ensures |EndPaused(r, time).toasts| <= ToastLimit
    ensures |RemovalsFired(r, time).toasts| <= ToastLimit
  {
    HiddenFacts(r.toasts, ids * Ids(r.toasts));
  }

  // ---------------------------------------------------------------- the store object

  class Store {
    var toasts: seq<Toast>
    var pausedAt: Option<int>
    var removals: map<string, int>

    function Reg(): Registry
      reads this
    {
      Registry(toasts, pausedAt, removals)
    }

    /** The store never holds more than `ToastLimit` toasts. */
    ghost predicate Valid()
      reads this
    {
      |toasts| <= ToastLimit
    }

    constructor ()
      ensures Valid()
      ensures Reg() == Registry([], None, map[])
    {
      toasts := [];
      pausedAt := None;
      removals := map[];
    }

    method Add(t: Toast)
      requires Valid()
      modifies this
      ensures Valid()
      ensures toasts == Added(old(toasts), t)
      ensures pausedAt == old(pausedAt) && removals == old(removals)
    {
      toasts := Added(toasts, t);
    }

    method Update(p: Patch)
      requires Valid()
      modifies this
      ensures Valid()
      ensures toasts == Updated(old(toasts), p)
      ensures pausedAt == old(pausedAt) && removals == old(removals)
    {
      toasts := Updated(toasts, p);
    }

    method Upsert(t: Toast)
      requires Valid()
      modifies this
      ensures Valid()
      ensures toasts == Upserted(old(toasts), t)
      ensures pausedAt == old(pausedAt) && removals == old(removals)
    {
      if t.id in Ids(toasts) {
        Update(FullPatch(t));
      } else {
        Add(t);
      }
    }

    method Dismiss(id: Option<string>, now: int)
      requires Valid()
      modifies this
      ensures Valid()
      ensures Reg() == Dismissed(old(Reg()), id, now)
    {
      var hit := (if id.Some? then {id.value} else Ids(toasts)) * Ids(toasts);
      toasts := Hidden(toasts, hit);
      removals := Armed(removals, hit, now + RemoveDelay);
    }

    method Remove(id: Option<string>)
      requires Valid()
      modifies this
      ensures Valid()
      ensures toasts == Removed(old(toasts), id)
      ensures pausedAt == old(pausedAt) && removals == old(removals)
    {
      toasts := Removed(toasts, id);
    }

    method StartPause(time: int)
      requires Valid()
      modifies this
      ensures Valid()
      ensures Reg() == StartPaused(old(Reg()), time)
    {
      if pausedAt.None? {
        pausedAt := Some(time);
      }
    }

    method EndPause(time: int)
      requires Valid()
      modifies this
      ensures Valid()
      ensures Reg() == EndPaused(old(Reg()), time)
    {
      if pausedAt.Some? {
        toasts := Shifted(toasts, time - pausedAt.value);
        pausedAt := None;
      }
    }

    /** Fires, one timer at a time, every removal that has come due by `now`. */
    method FireRemovals(now: int)
      requires Valid()
      modifies this
      ensures Valid()
      ensures Reg() == RemovalsFired(old(Reg()), now)
    {
      var due := DueRemovals(removals, now);
      ghost var fired: set<string> := {};
      KeptNothing(toasts);
      while due != {}
        invariant fired + due == DueRemovals(old(removals), now) && fired !! due
        invariant toasts == Kept(old(toasts), fired)
        invariant removals == old(removals) - fired
        invariant pausedAt == old(pausedAt)
        invariant Valid()
        decreases due
      {
        var id :| id in due;
        removals := removals - {id};
        KeptUnion(old(toasts), fired, id);
        Remove(Some(id));
        due := due - {id};
        fired := fired + {id};
      }
    }
  }
}
