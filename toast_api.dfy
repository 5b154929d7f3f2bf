/** The `toast(...)` facade: builds a toast from a message, a kind and
    per-call options, and upserts it into the shared registry; its helpers
    `success`, `error`, `loading` and `custom` differ only in the kind, and
    `dismiss`/`remove` pass straight through to the registry. The id the
    facade would generate and the current time are parameters. */
module ToastApi {
  import opened Types
  import opened Store

  /** The accessibility pair every new toast carries unless the caller gives one. */
  const DefaultAria := AriaProps("status", "polite")

  /** What a caller may pass per toast. */
  datatype ToastOptions = ToastOptions(
    id: Option<string>,
    duration: Option<Duration>,
    position: Option<Position>,
    ariaProps: Option<AriaProps>,
    style: Option<string>,
    className: Option<string>)

  const NoOptions := ToastOptions(None, None, None, None, None, None)

  /** The toast a facade call creates at `now`: visible, never paused, with the
      default accessibility pair, the caller's options spread over the
      defaults, and the caller's id or else `freshId`. */
  function CreateToast(message: string, kind: ToastType, opts: ToastOptions, freshId: string, now: int): Toast {
    Toast(opts.id.GetOr(freshId), kind, message, now, true, 0, opts.duration, None,
          opts.position, opts.ariaProps.GetOr(DefaultAria), opts.style, opts.className)
  }

  // ------------------------------------------------------------ the facade

  /** The handler behind every kind: create the toast, upsert it, return its id. */
  method Show(s: Store, message: string, kind: ToastType, opts: ToastOptions, freshId: string, now: int)
    returns (id: string)
    requires s.Valid()
    modifies s
    ensures s.Valid()
    ensures id == opts.id.GetOr(freshId)
    ensures s.toasts == Upserted(old(s.toasts), CreateToast(message, kind, opts, freshId, now))
    ensures s.pausedAt == old(s.pausedAt) && s.removals == old(s.removals)
  {
    var t := CreateToast(message, kind, opts, freshId, now);
    s.Upsert(t);
    id := t.id;
  }

  /** `toast(message, opts)`. */
  method ShowBlank(s: Store, message: string, opts: ToastOptions, freshId: string, now: int) returns (id: string)
    requires s.Valid()
    modifies s
    ensures s.Valid()
    ensures id == opts.id.GetOr(freshId)
    ensures s.toasts == Upserted(old(s.toasts), CreateToast(message, Blank, opts, freshId, now))
    ensures s.pausedAt == old(s.pausedAt) && s.removals == old(s.removals)
  {
    id := Show(s, message, Blank, opts, freshId, now);
  }

  /** `toast.success(message, opts)`. */
  method ShowSuccess(s: Store, message: string, opts: ToastOptions, freshId: string, now: int) returns (id: string)
    requires s.Valid()
    modifies s
    ensures s.Valid()
    ensures id == opts.id.GetOr(freshId)
    ensures s.toasts == Upserted(old(s.toasts), CreateToast(message, Success, opts, freshId, now))
    ensures s.pausedAt == old(s.pausedAt) && s.removals == old(s.removals)
  {
    id := Show(s, message, Success, opts, freshId, now);
  }

  /** `toast.error(message, opts)`. */
  method ShowError(s: Store, message: string, opts: ToastOptions, freshId: string, now: int) returns (id: string)
    requires s.Valid()
    modifies s
    ensures s.Valid()
    ensures id == opts.id.GetOr(freshId)
    ensures s.toasts == Upserted(old(s.toasts), CreateToast(message, Error, opts, freshId, now))
    ensures s.pausedAt == old(s.pausedAt) && s.removals == old(s.removals)
  {
    id := Show(s, message, Error, opts, freshId, now);
  }

  /** `toast.loading(message, opts)`. */
  method ShowLoading(s: Store, message: string, opts: ToastOptions, freshId: string, now: int) returns (id: string)
    requires s.Valid()
    modifies s
    ensures s.Valid()
    ensures id == opts.id.GetOr(freshId)
    ensures s.toasts == Upserted(old(s.toasts), CreateToast(message, Loading, opts, freshId, now))
    ensures s.pausedAt == old(s.pausedAt) && s.removals == old(s.removals)
  {
    id := Show(s, message, Loading, opts, freshId, now);
  }

  /** `toast.custom(message, opts)`. */
  method ShowCustom(s: Store, message: string, opts: ToastOptions, freshId: string, now: int) returns (id: string)
    requires s.Valid()
    modifies s
    ensures s.Valid()
    ensures id == opts.id.GetOr(freshId)
    ensures s.toasts == Upserted(old(s.toasts), CreateToast(message, Custom, opts, freshId, now))
    ensures s.pausedAt == old(s.pausedAt) && s.removals == old(s.removals)
  {
    id := Show(s, message, Custom, opts, freshId, now);
  }

  /** `toast.dismiss(id?)`. */
  method Dismiss(s: Store, id: Option<string>, now: int)
    requires s.Valid()
    modifies s
    ensures s.Valid()
    ensures s.Reg() == Dismissed(old(s.Reg()), id, now)
  {
    s.Dismiss(id, now);
  }

  /** `toast.remove(id?)`. */
  method Remove(s: Store, id: Option<string>)
    requires s.Valid()
    modifies s
    ensures s.Valid()
    ensures s.toasts == Removed(old(s.toasts), id)
    ensures s.pausedAt == old(s.pausedAt) && s.removals == old(s.removals)
  {
    s.Remove(id);
  }

  // ------------------------------------------------------------ properties

  /** A facade call with an id not yet present puts one new toast in front,
      carrying the given kind and message, visible, created now, never paused,
      with the default accessibility pair unless the caller gives one; the
      older toasts follow in their order, up to the cap. */
  lemma ShowFresh(ts: seq<Toast>, message: string, kind: ToastType, opts: ToastOptions, freshId: string, now: int)
    requires opts.id.GetOr(freshId) !in Ids(ts)
    ensures var r := Upserted(ts, CreateToast(message, kind, opts, freshId, now));
      |r| == Min(|ts| + 1, ToastLimit) &&
      r[0].id == opts.id.GetOr(freshId) && r[0].toastType == kind && r[0].message == message &&
      r[0].visible && r[0].createdAt == now && r[0].pauseDuration == 0 &&
      r[0].ariaProps == opts.ariaProps.GetOr(DefaultAria) &&
      (forall i :: 1 <= i < |r| ==> r[i] == ts[i - 1])
  {
    UpsertedSemantics(ts, CreateToast(message, kind, opts, freshId, now));
  }

  /** A facade call with an id already present adds nothing: the toast with
      that id takes the new kind (and the message, unless it is empty), is
      visible again, counts from the call's time (unless that is 0) and keeps
      the pause duration it had, since the new toast's 0 is falsy; every other
      toast is left as it was. */
  lemma ShowExisting(ts: seq<Toast>, message: string, kind: ToastType, opts: ToastOptions, freshId: string, now: int)
    requires opts.id.GetOr(freshId) in Ids(ts)
    ensures var r := Upserted(ts, CreateToast(message, kind, opts, freshId, now));
      |r| == |ts| && Ids(r) == Ids(ts) &&
      forall i :: 0 <= i < |ts| ==>
        if ts[i].id == opts.id.GetOr(freshId) then
          r[i].id == ts[i].id && r[i].toastType == kind &&
          r[i].message == (if message != "" then message else ts[i].message) &&
          r[i].visible && r[i].createdAt == (if now != 0 then now else ts[i].createdAt) &&
          r[i].pauseDuration == ts[i].pauseDuration
        else r[i] == ts[i]
  {
    UpsertedSemantics(ts, CreateToast(message, kind, opts, freshId, now));
  }

  /** Two facade calls naming the same id that was not yet present leave a
      single toast with that id, in front, carrying the second call's kind
      and message (the first call's message when the second one is empty). */
  lemma SameIdOneToast(ts: seq<Toast>, id: string,
                       m1: string, k1: ToastType, o1: ToastOptions, f1: string, n1: int,
                       m2: string, k2: ToastType, o2: ToastOptions, f2: string, n2: int)
    requires UniqueIds(ts) && id !in Ids(ts) && o1.id == Some(id) && o2.id == Some(id)
    ensures var r := Upserted(Upserted(ts, CreateToast(m1, k1, o1, f1, n1)), CreateToast(m2, k2, o2, f2, n2));
      |r| == Min(|ts| + 1, ToastLimit) && UniqueIds(r) &&
      r[0].id == id && r[0].toastType == k2 && r[0].message == (if m2 != "" then m2 else m1) &&
      (forall i :: 1 <= i < |r| ==> r[i] == ts[i - 1])
  {
    var t1 := CreateToast(m1, k1, o1, f1, n1);
    var r1 := Upserted(ts, t1);
    ShowFresh(ts, m1, k1, o1, f1, n1);
    UpsertedKeepsUnique(ts, t1);
    assert r1[0] in r1;
    ShowExisting(r1, m2, k2, o2, f2, n2);
    UpsertedKeepsUnique(r1, CreateToast(m2, k2, o2, f2, n2));
    var r := Upserted(r1, CreateToast(m2, k2, o2, f2, n2));
    forall i | 1 <= i < |r| ensures r[i] == ts[i - 1] {
      assert r1[i].id != id;
    }
  }

  /** A run of facade calls, in call order. */
  function UpsertedAll(ts: seq<Toast>, xs: seq<Toast>): seq<Toast>
    decreases |xs|
  {
    if xs == [] then ts else Upserted(UpsertedAll(ts, xs[..|xs| - 1]), xs[|xs| - 1])
  }

  /** A run of adds introduces only the ids it adds. */
  lemma {:induction false} AddedAllIds(ts: seq<Toast>, xs: seq<Toast>)
    ensures Ids(AddedAll(ts, xs)) <= Ids(ts) + Ids(xs)
    decreases |xs|
  {
    if xs != [] {
      var init := xs[..|xs| - 1];
      AddedAllIds(ts, init);
      var a := AddedAll(ts, init);
      var r := Added(a, xs[|xs| - 1]);
      assert Ids(init) <= Ids(xs) by {
        forall x | x in Ids(init) ensures x in Ids(xs) {
          var u :| u in init && u.id == x;
          assert u in xs;
        }
      }
      assert xs[|xs| - 1] in xs;
      forall x | x in Ids(r) ensures x in Ids(a) + {xs[|xs| - 1].id} {
        var i :| 0 <= i < |r| && r[i].id == x;
        if i > 0 {
          assert a[i - 1] in a;
        }
      }
    }
  }

  /** Facade calls whose ids are all distinct and new are plain adds. */
  lemma {:induction false} FreshCallsAreAdds(ts: seq<Toast>, xs: seq<Toast>)
    requires UniqueIds(xs) && Ids(ts) !! Ids(xs)
    ensures UpsertedAll(ts, xs) == AddedAll(ts, xs)
    decreases |xs|
  {
    if xs != [] {
      var init := xs[..|xs| - 1];
      var last := xs[|xs| - 1];
      assert UniqueIds(init) by {
        forall a, b | 0 <= a < b < |init| ensures init[a].id != init[b].id {
          assert init[a] == xs[a] && init[b] == xs[b];
        }
      }
      assert Ids(init) <= Ids(xs) by {
        forall x | x in Ids(init) ensures x in Ids(xs) {
          var u :| u in init && u.id == x;
          assert u in xs;
        }
      }
      FreshCallsAreAdds(ts, init);
      AddedAllIds(ts, init);
      assert last in xs;
    }
  }

  /** After any run of facade calls with distinct generated ids on an empty
      registry, the registry lists the last `ToastLimit` of them, the most
      recent first. */
  lemma FreshCallsNewestFirst(xs: seq<Toast>)
    requires UniqueIds(xs)
    ensures |UpsertedAll([], xs)| == Min(|xs|, ToastLimit)
    ensures forall i :: 0 <= i < |UpsertedAll([], xs)| ==> UpsertedAll([], xs)[i] == xs[|xs| - 1 - i]
  {
    FreshCallsAreAdds([], xs);
    AddedAllNewestFirst(xs);
  }

  /** Dismissing a present toast through the facade keeps it, hidden, and
      keeps the registry's size; removing it afterwards deletes exactly it. */
  lemma DismissThenRemove(r: Registry, id: string, now: int)
    requires UniqueIds(r.toasts) && id in Ids(r.toasts)
    ensures var d := Dismissed(r, Some(id), now);
      |d.toasts| == |r.toasts| && id in Ids(d.toasts) &&
      (forall t :: t in d.toasts && t.id == id ==> !t.visible) &&
      Ids(Removed(d.toasts, Some(id))) == Ids(r.toasts) - {id} &&
      (forall t :: t in Removed(d.toasts, Some(id)) <==> t in d.toasts && t.id != id)
  {
    var d := Dismissed(r, Some(id), now);
    DismissIdsSemantics(r, {id}, now);
    forall t | t in d.toasts && t.id == id ensures !t.visible {
      var i :| 0 <= i < |d.toasts| && d.toasts[i] == t;
    }
    RemovedSemantics(d.toasts, Some(id));
  }

  // ------------------------------------------------------------ the unit scenarios

  /** `toast('Hello')` on an empty registry: one blank, visible toast with the
      returned id, the message, and the default accessibility pair. */
  method BlankWithDefaults(freshId: string, now: int) returns (id: string, current: seq<Toast>)
    ensures |current| == 1 && current[0].id == id && id == freshId
    ensures current[0].toastType == Blank && current[0].message == "Hello" && current[0].visible
    ensures current[0].ariaProps == AriaProps("status", "polite")
  {
    var s := new Store();
    id := ShowBlank(s, "Hello", NoOptions, freshId, now);
    current := s.toasts;
  }

  /** The kinds of a list of toasts, in order. */
  function Kinds(ts: seq<Toast>): (r: seq<ToastType>)
    ensures |r| == |ts| && forall i :: 0 <= i < |ts| ==> r[i] == ts[i].toastType
  {
    seq(|ts|, i requires 0 <= i < |ts| => ts[i].toastType)
  }

  /** The four typed helpers called in turn with generated ids. */
  function TypedCalls(now: int): seq<Toast> {
    [CreateToast("ok", Success, NoOptions, "1", now), CreateToast("nope", Error, NoOptions, "2", now),
     CreateToast("working", Loading, NoOptions, "3", now), CreateToast("custom", Custom, NoOptions, "4", now)]
  }

  /** `success`, `error`, `loading`, `custom` called in turn on an empty
      registry list their kinds newest first. */
  lemma TypedCallsNewestFirst(now: int)
    ensures Kinds(UpsertedAll([], TypedCalls(now))) == [Custom, Loading, Error, Success]
  {
    var xs := TypedCalls(now);
    FreshCallsNewestFirst(xs);
    var r := UpsertedAll([], xs);
    assert r[0] == xs[3] && r[1] == xs[2] && r[2] == xs[1] && r[3] == xs[0];
  }

  /** `success('first', {id: 'fixed'})` then `error('second', {id: 'fixed'})`:
      one toast, id `fixed`, kind error, message `second`. */
  method SameIdReused(now: int) returns (current: seq<Toast>)
    ensures |current| == 1
    ensures current[0].id == "fixed" && current[0].toastType == Error && current[0].message == "second"
  {
    var s := new Store();
    var o := NoOptions.(id := Some("fixed"));
    var a := ShowSuccess(s, "first", o, "1", now);
    var b := ShowError(s, "second", o, "2", now);
    SameIdOneToast([], "fixed", "first", Success, o, "1", now, "second", Error, o, "2", now);
    current := s.toasts;
  }

  /** `toast('will-dismiss')`, `dismiss(id)`: the toast is hidden; then
      `remove(id)`: the registry is empty. */
  method DismissAndRemove(freshId: string, now: int) returns (afterDismiss: seq<Toast>, afterRemove: seq<Toast>)
    ensures |afterDismiss| == 1 && !afterDismiss[0].visible
    ensures afterRemove == []
  {
    var s := new Store();
    var id := ShowBlank(s, "will-dismiss", NoOptions, freshId, now);
    assert s.toasts[0] in s.toasts;
    DismissThenRemove(s.Reg(), id, now);
    Dismiss(s, Some(id), now);
    afterDismiss := s.toasts;
    assert afterDismiss[0] in afterDismiss;
    Remove(s, Some(id));
    afterRemove := s.toasts;
  }
}
