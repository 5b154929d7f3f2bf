# svelte-french-toast core, modelled in Dafny

This project models the state-and-timing core of svelte-french-toast, a
library for transient "toast" notifications:

- **Registry** (`store.dfy`, module `Store`). The newest-first list of
  toasts, capped at 20, with `add`, `update`, `upsert`, `dismiss` and
  `remove`. It also holds the pause anchor (`startPause`/`endPause`) and
  the removal that follows each dismissal after 1000 ms. The
  `useToasterStore` merge computes each toast's effective duration, style
  and class name.
  - Every operation is a pure function on a `Registry` value.
  - The class `Store` holds the same state in fields. Each of its methods
    is proved to produce exactly the state the matching function gives.
- **Dismissal scheduler** (`use_toaster.dfy`, module `UseToaster`). The
  logic behind `useToaster`. Each visible finite toast is dismissed once
  `createdAt + duration + pauseDuration` has come. A toast already past
  its deadline is dismissed at once. Every other toast waits on a timer
  that is replaced on every change. Pausing freezes the countdown, and
  teardown cancels every timer.
  - Time is a logical millisecond clock.
  - The functions on the value `Sys` (registry, clock, mount flag) specify
    the scheduler.
  - The class `Toaster` keeps the timers in a field and fires them tick by
    tick. Its methods are proved to follow the functions.
- **Offset calculator** (`offset.dfy`, module `Offset`). `calculateOffset`
  stacks toasts by position, visibility, gutter and display order. It is
  proved equal to an independent one-pass walk.
- **Facade** (`toast_api.dfy`, module `ToastApi`). `toast(message, opts)`
  and its helpers `success`, `error`, `loading`, `custom`, `dismiss` and
  `remove`, built on the registry's `upsert`.
- **Lazy content** (`types.dfy`, module `Types`). `resolveValue`, plus the
  toast record and the patch merge shared by everything above.
- **Distribution check** (`verify_dist.dfy`, module `VerifyDist`). The
  predicate that flags test files leaked into the build output. `text.dfy`
  (module `Text`) gives it, and the style merge, a substring search.

The implementation files `src/lib/core/store.ts`, `use-toaster.ts`,
`toast.ts` and `types.ts` are not part of this model. Their behaviour is
modelled from the unit tests that pin it down, listed below. Where the
tests are silent, the model makes these choices:
- a second `startPause` keeps the first anchor;
- `endPause` without a pause does nothing;
- `dismiss(id)` of an absent id does nothing;
- the per-type default durations are an assumed table (4000 ms, except
  success at 2000 ms and loading, which is never dismissed); no test fixes
  them;
- a merge (`upsert` of a present id, and `update`, which applies the same
  merge) overrides a field only with a truthy value: the empty string, 0,
  `false` and a zero duration keep the prior value, so an upsert through
  the facade keeps the toast's pause duration;
- a queued removal belongs to an id, not to one toast: `update`, `upsert`
  and `remove` leave the queue as it is. A toast dismissed and then shown
  again with the same id is still removed when the dismissal's timer fires,
  1000 ms after the dismissal; after a manual `remove(id)` the armed timer
  removes a later toast with that id;
- a toast without a measured height counts as height 0 in the offset sum,
  so it still adds one gutter; heights and the gutter are integers, not
  measured pixel numbers;
- `calculateOffset`'s options are all given: an omitted `reverseOrder` is
  modelled as `false`, and the gutter is always supplied.

## Model

| member | source | states |
|---|---|---|
| Store.Added | src/lib/core/store.test.ts:45-55 | `add` puts the new toast in front, shifts the others back by one, and keeps at most 20 |
| Store.AddedAllNewestFirst | src/lib/core/store.test.ts:45-55 | after any run of adds on an empty registry, it holds the last 20 toasts added, the most recent first |
| Store.AddTwentyFive | src/lib/core/store.test.ts:45-55 | 25 adds leave 20 toasts: the 25th in front and the 6th at index 19 |
| Store.AddedKeepsUnique | src/lib/core/store.test.ts:45-55 | adding a toast with a fresh id keeps ids unique |
| Store.Updated | src/lib/core/store.test.ts:116-126 | models `update(patch)`: the toast with the patch's id takes the patch's truthy fields, the others stay; its properties are proved in `Store.UpdatedPatchesOnlyItsId` |
| Store.Upserted | src/lib/core/store.test.ts:57-69 | models `upsert(toast)`: a merge of the new toast's truthy fields for a present id, an `add` otherwise; its properties are proved in `Store.UpsertedSemantics` |
| Store.UpsertedSemantics | src/lib/core/store.test.ts:57-69 | upsert of a present id keeps the size and the ids, and turns that toast into the old one merged with the whole new toast: the new id, type and accessibility pair, and the new message, creation time, visibility and pause duration where they are truthy (the old ones otherwise); the other toasts are left alone; upsert of an absent id is `add` |
| Store.UpsertedKeepsUnique | src/lib/core/store.test.ts:57-69 | upsert never creates a second toast with the same id |
| Store.UpdatedPatchesOnlyItsId | src/lib/core/store.test.ts:116-126 | update keeps every id, merges the patch into the toast with the patch's id only, leaves the others unchanged, and is a no-op for an unknown id |
| Types.FullPatchOverrides | src/lib/core/store.test.ts:57-69 | merging a whole toast over an older one with the same id takes the new type and accessibility pair, and each other field from the new toast where it is truthy and from the old one where it is falsy or absent |
| Types.ApplyIdempotent | src/lib/core/store.test.ts:116-126 | applying a patch twice equals applying it once, and the empty patch changes nothing |
| Store.DismissIds | src/lib/core/store.test.ts:71-95 | models dismissing a set of ids: the present ones are hidden and get a removal queued 1000 ms later; its properties are proved in `Store.DismissIdsSemantics` |
| Store.Dismissed | src/lib/core/store.test.ts:71-95 | models `dismiss(id?)`: one id, or every present id when none is given, through `Store.DismissIds` |
| Store.DismissIdsSemantics | src/lib/core/store.test.ts:71-76 | dismissing hides exactly the named present toasts, keeps the size, the ids and the order, and queues a removal 1000 ms later for each newly dismissed toast, leaving removals already queued as they were |
| Store.DismissIdsUnion | src/lib/core/store.test.ts:85-95 | dismissing one set of ids, then another, equals dismissing their union |
| Store.DismissNobody | src/lib/core/store.test.ts:71-83 | dismissing no id changes nothing |
| Store.DismissThenRemoveTiming | src/lib/core/store.test.ts:71-83 | after `dismiss(id)` the toast is hidden; it is still present when the removals due 999 ms later have fired, and gone once those due at 1000 ms have fired |
| Store.ReshownStillRemoved | src/lib/core/store.test.ts:71-83 | a toast dismissed and then upserted again with its id is visible meanwhile, keeps the removal queued at dismissal + 1000 ms, and is removed when it fires |
| Store.DismissAllThenEmpty | src/lib/core/store.test.ts:85-95 | `dismiss()` hides every toast, and once the removals queued by then (its own at now + 1000, and any earlier ones) have fired the registry is empty, with no removal left queued |
| Store.RemovalsFired | src/lib/core/store.test.ts:78-83 | models the removal timers that come due by a time: their toasts are removed and they leave the queue; used by `Store.DismissThenRemoveTiming` and `Store.DismissAllThenEmpty` |
| Store.Removed | src/lib/core/store.test.ts:97-104 | models `remove(id?)`: drop the toasts with that id, or every toast; its properties are proved in `Store.RemovedSemantics` |
| Store.RemovedSemantics | src/lib/core/store.test.ts:97-104 | `remove()` leaves the registry empty; `remove(id)` keeps exactly the toasts with other ids |
| Store.KeptMembers | src/lib/core/store.test.ts:97-104 | filtering by a set of ids keeps exactly the toasts whose id is not in the set |
| Store.KeptIds | src/lib/core/store.test.ts:97-104 | filtering drops exactly the filtered ids from the id set |
| Store.KeptUnion | src/lib/core/store.test.ts:85-95 | removing one id after a set of ids equals removing their union, which lets removals fire one at a time |
| Store.KeptAppend | src/lib/core/store.test.ts:97-104 | filtering works piecewise on a concatenation, so the kept toasts stay in their relative order |
| Store.KeptUnique | src/lib/core/store.test.ts:97-104 | filtering keeps ids unique |
| Store.StartPaused | src/lib/core/store.test.ts:106-114 | models `startPause(time)`: anchor the pause unless one is anchored; proved in `Store.StartPauseIdempotent` |
| Store.EndPaused | src/lib/core/store.test.ts:106-114 | models `endPause(time)`: add the paused time to every pause duration and clear the anchor; proved in `Store.PauseWindow` |
| Store.PauseWindow | src/lib/core/store.test.ts:106-114 | a pause from t1 to t2 adds exactly t2 - t1 to every toast's pause duration, changes nothing else, and clears the anchor |
| Store.StartPauseIdempotent | src/lib/core/store.test.ts:106-114 | a second `startPause` while paused keeps the first anchor |
| Store.PauseDurationMonotone | src/lib/core/store.test.ts:106-114 | ending a pause no earlier than it began never lowers a pause duration |
| Store.PauseExample | src/lib/core/store.test.ts:106-114 | a pause from 100 to 160 turns pause duration 10 into 70 and clears the anchor |
| Store.EffectiveDuration | src/lib/core/store.test.ts:128-148 | models the merged duration; its precedence is proved in `Store.DurationPrecedence` |
| Store.EffectiveStyle | src/lib/core/store.test.ts:150-152 | models the merged style, global then type then toast; proved in `Store.StyleContainsAll` |
| Store.EffectiveClassName | src/lib/core/store.test.ts:149 | models the merged class name, the global one and the toast's own joined by a space |
| Store.MergedToasts | src/lib/core/store.test.ts:128-153 | models the list `useToasterStore` hands out, each toast merged with the options; proved in `Store.MergedKeepsToasts` and `Store.MergeExample` |
| Store.DurationPrecedence | src/lib/core/store.test.ts:128-148 | effective duration: the toast's own, else its type's, else the global one, else the built-in default for the type |
| Store.StyleContainsAll | src/lib/core/store.test.ts:150-152 | the effective style contains the global, the type and the toast style, with the global style first and the toast's own style last |
| Store.MergedKeepsToasts | src/lib/core/store.test.ts:128-153 | the merge keeps order, ids, types, messages, visibility and timing; every toast gets a duration; without a global class name the toast's own class name is kept |
| Store.MergeExample | src/lib/core/store.test.ts:128-153 | the store's example merges to duration 900, class `toast-class`, and a style containing all three declarations |
| Store.CapPreserved | src/lib/core/store.test.ts:45-55 | no registry operation (add, update, upsert, dismiss, remove, pause, resume, firing removals) takes the registry beyond 20 toasts |
| Store.Store.Add | src/lib/core/store.test.ts:45-55 | the store's toasts become `Added` of the old ones; the anchor and the removals are unchanged; the 20-toast cap is kept |
| Store.Store.Update | src/lib/core/store.test.ts:116-126 | the store's toasts become `Updated` of the old ones; nothing else changes |
| Store.Store.Upsert | src/lib/core/store.test.ts:57-69 | the store's toasts become `Upserted` of the old ones; nothing else changes |
| Store.Store.Dismiss | src/lib/core/store.test.ts:71-95 | the store's state becomes `Dismissed` of the old state |
| Store.Store.Remove | src/lib/core/store.test.ts:97-104 | the store's toasts become `Removed` of the old ones; nothing else changes |
| Store.Store.StartPause | src/lib/core/store.test.ts:106-114 | the store's state becomes `StartPaused` of the old state |
| Store.Store.EndPause | src/lib/core/store.test.ts:106-114 | the store's state becomes `EndPaused` of the old state |
| Store.Store.FireRemovals | src/lib/core/store.test.ts:78-83 | firing the due removal timers one by one leaves exactly the state `RemovalsFired` describes |
| Store.Store.constructor | src/lib/core/store.test.ts:32-36 | a new store is empty, unpaused, and has no removal queued, so it starts within the cap |
| UseToaster.Deadline | tests/unit/core/use-toaster.test.ts:62-75 | models a toast's deadline: creation time plus effective duration plus pause duration |
| UseToaster.IsDue | tests/unit/core/use-toaster.test.ts:51-60 | models a countdown that has run out: visible, finite, deadline come; used by `UseToaster.DueIdsMembers` and `UseToaster.SyncDismissesDue` |
| UseToaster.AfterSync | tests/unit/core/use-toaster.test.ts:51-75 | models the subscription's reaction: while mounted and unpaused, dismiss every due toast; its properties are proved in `UseToaster.SyncFacts` and the lemmas after it |
| UseToaster.AfterTick | tests/unit/core/use-toaster.test.ts:62-75 | models one millisecond: the due removals fire, then the reaction; proved in `UseToaster.TickKeeps`, `UseToaster.TickDismisses` and `UseToaster.TickIsTimerFiring` |
| UseToaster.AfterAdvance | tests/unit/core/use-toaster.test.ts:70-75 | models `advanceTimersByTime(k)` as k ticks; proved in `UseToaster.AdvanceKeeps` and `UseToaster.DismissedAtDeadline` |
| UseToaster.DueIdsMembers | tests/unit/core/use-toaster.test.ts:51-75 | the due ids are exactly the ids of visible finite toasts whose deadline has come |
| UseToaster.PendingTimersMembers | tests/unit/core/use-toaster.test.ts:62-75 | with unique ids, a present toast has a pending timer exactly when its countdown still runs; the timer is set to its deadline, and timers belong only to present ids |
| UseToaster.TimersMeaning | tests/unit/core/use-toaster.test.ts:62-107 | the scheduler holds a timer for a present toast exactly when it is mounted, not paused, and the toast's countdown still runs; the timer is set to the deadline |
| UseToaster.SyncFacts | tests/unit/core/use-toaster.test.ts:51-75 | the reaction to a registry change keeps ids unique and the clock, anchor and mount unchanged; while active it leaves nothing due, and the timers it arms are those of the snapshot it saw |
| UseToaster.SyncIdempotent | tests/unit/core/use-toaster.test.ts:51-75 | reacting to the reaction's own result changes nothing |
| UseToaster.SyncKeeps | tests/unit/core/use-toaster.test.ts:62-75 | the reaction never touches a toast that is not due, nor any toast while paused or unmounted |
| UseToaster.SyncDismissesDue | tests/unit/core/use-toaster.test.ts:51-60 | a toast that is due when the active scheduler reacts is dismissed then, with its removal queued 1000 ms later |
| UseToaster.SyncKeepsRemovals | tests/unit/core/use-toaster.test.ts:51-75 | the reaction keeps every id present and every queued removal at its time |
| UseToaster.TickKeeps | tests/unit/core/use-toaster.test.ts:62-72 | a millisecond passes without touching a toast that is not due at the new time and has no removal queued |
| UseToaster.TickDismisses | tests/unit/core/use-toaster.test.ts:73-74 | the millisecond at which a countdown runs out dismisses the toast and queues its removal 1000 ms later |
| UseToaster.TickKeepsRemoval | src/lib/core/store.test.ts:78-79 | a millisecond before a queued removal is due keeps it queued at its time and keeps its toast |
| UseToaster.TickRemoves | src/lib/core/store.test.ts:81-82 | the millisecond at which a queued removal is due removes its toast |
| UseToaster.TimersFiringRedundant | tests/unit/core/use-toaster.test.ts:62-75 | the dismissal timers that fire in a millisecond dismiss nothing the following reaction would not: firing them and then reacting equals reacting alone |
| UseToaster.FiredTimersLeaveNothingDue | tests/unit/core/use-toaster.test.ts:62-75 | when a millisecond starts with nothing due, hiding the toasts whose timers fire then leaves nothing due |
| UseToaster.TimersFiringSuffices | tests/unit/core/use-toaster.test.ts:62-75 | conversely, when a millisecond starts with nothing due (as every reaction leaves it), the timers that fire already dismiss everything that comes due, and the reaction after them changes nothing |
| UseToaster.TickIsTimerFiring | tests/unit/core/use-toaster.test.ts:62-75 | from such a state, a millisecond is exactly the due removals firing and then the due dismissal timers firing |
| UseToaster.AdvanceKeeps | tests/unit/core/use-toaster.test.ts:70-71 | over k milliseconds a toast stays untouched while it is not due, or while the scheduler stays paused or unmounted |
| UseToaster.AdvanceKeepsRemoval | src/lib/core/store.test.ts:78-79 | while a removal is queued for a later instant, time keeps it queued and keeps its toast present |
| UseToaster.RemovedAfterDelay | src/lib/core/store.test.ts:71-83 | a toast whose removal is queued 1000 ms ahead is still present after 999 ms and gone after 1000 ms |
| UseToaster.DismissedAtDeadline | tests/unit/core/use-toaster.test.ts:62-75 | a visible finite toast whose deadline is k ms ahead is still present after k - 1 ms; after k ms it is hidden, with its removal queued at deadline + 1000 |
| UseToaster.FiniteLifecycle | tests/unit/core/use-toaster.test.ts:62-75 | such a toast is visible until its deadline and hidden at it; it is still present 999 ms later and gone 1000 ms later |
| UseToaster.InfiniteNeverDismissed | tests/unit/core/use-toaster.test.ts:77-86 | a toast whose effective duration is infinite stays untouched and never gets a timer, however long the clock runs |
| UseToaster.TeardownStopsDismissals | tests/unit/core/use-toaster.test.ts:39-49 | after teardown no timer is held and nothing is dismissed, however long the clock runs |
| UseToaster.AddPastDeadline | tests/unit/core/use-toaster.test.ts:51-60 | adding a toast whose deadline has already passed dismisses it at once and queues its removal 1000 ms later |
| UseToaster.AddArmsTimer | tests/unit/core/use-toaster.test.ts:62-68 | adding a toast whose countdown still runs leaves it visible and arms a timer for its deadline |
| UseToaster.StartPauseKeeps | tests/unit/core/use-toaster.test.ts:96-99 | pausing keeps every toast, anchors the pause at the current time, and cancels every timer |
| UseToaster.EndPauseShifts | tests/unit/core/use-toaster.test.ts:101-103 | resuming after q paused milliseconds adds q to the toast's pause duration, which moves its deadline q later; the toast is not dismissed if that deadline is still ahead |
| UseToaster.PausedInterval | tests/unit/core/use-toaster.test.ts:94-99 | running p ms, pausing and running q ms more keeps a toast not due within the first p ms, with the pause still anchored where it began |
| UseToaster.PauseDoesNotCount | tests/unit/core/use-toaster.test.ts:88-107 | a toast paused for q ms after p ms of its countdown resumes with q more pause duration; it is still visible one ms before the remaining time has run, and dismissed when it has |
| UseToaster.Toaster.constructor | tests/unit/core/use-toaster.test.ts:56-57 | mounting holds exactly the timers `Timers` describes, its state being the reaction to the current snapshot, with nothing left due |
| UseToaster.Toaster.Sync | tests/unit/core/use-toaster.test.ts:51-75 | dismissing the due toasts one by one and re-arming the timers produces the state `AfterSync` describes, with exactly the timers `Timers` describes |
| UseToaster.Toaster.Tick | tests/unit/core/use-toaster.test.ts:62-75 | firing the due removals, then the due dismissal timers, then reacting produces the state `AfterTick` describes, timers included; the invariant (cap, unique ids, timers as `Timers` describes, nothing due while active) is kept |
| UseToaster.Toaster.Advance | tests/unit/core/use-toaster.test.ts:70-75 | advancing dt ms produces `AfterAdvance` of dt ticks |
| UseToaster.Toaster.Add | tests/unit/core/use-toaster.test.ts:57 | the subscription reacts to an `add` as `AfterAdd` describes |
| UseToaster.Toaster.StartPause | tests/unit/core/use-toaster.test.ts:97 | the pause handler produces `AfterStartPause` and holds no timer |
| UseToaster.Toaster.EndPause | tests/unit/core/use-toaster.test.ts:101 | the resume handler produces `AfterEndPause`, timers re-armed |
| UseToaster.Toaster.UpdateHeight | tests/unit/core/use-toaster.test.ts:110 | recording a height updates that toast (a height of 0, being falsy, keeps the prior one) and re-arms the timers; the handler is only obtained there, no test calls it |
| UseToaster.Toaster.Destroy | tests/unit/core/use-toaster.test.ts:39-43 | teardown drops every timer and unmounts, leaving the registry unchanged |
| Offset.CalculateOffset | tests/unit/core/use-toaster.test.ts:109-130 | models `calculateOffset`: keep the visible toasts at the target's position, order them, and add up height + gutter of those ahead of the target; proved in `Offset.OffsetMatchesScan` |
| Offset.Reverse | tests/unit/core/use-toaster.test.ts:123-129 | the `reverseOrder` ordering: the same length, and position k holds the toast at position length - 1 - k |
| Offset.OffsetMatchesScan | tests/unit/core/use-toaster.test.ts:109-130 | the offset equals an independent one-pass walk in display order, forward or reversed, that adds up height + gutter of each relevant toast ahead; a target not in its stack gets 0 |
| Offset.FirstAndSecond | tests/unit/core/use-toaster.test.ts:117-129 | the first toast of a two-toast stack is at 0 and the second one weight further; reversing the order swaps their roles |
| Offset.OffsetIgnoresIrrelevant | tests/unit/core/use-toaster.test.ts:113-114 | an invisible toast, or one at another position, has no effect on any offset, wherever it sits in the list |
| Offset.OffsetNonNegative | tests/unit/core/use-toaster.test.ts:109-130 | with non-negative heights and gutter, no offset is negative |
| Offset.OffsetExample | tests/unit/core/use-toaster.test.ts:109-130 | the example stack gives offsets 0, 18 and, reversed, 28 |
| Offset.IndexOfId | tests/unit/core/use-toaster.test.ts:117-122 | the index found is the first with the id, or the length when there is none |
| ToastApi.CreateToast | tests/unit/core/toast.test.ts:15-30 | models the toast a facade call creates: the caller's id or the generated one, visible, created now, never paused, with the default accessibility pair unless given; proved in `ToastApi.ShowFresh` |
| ToastApi.Show | tests/unit/core/toast.test.ts:15-52 | a facade call upserts the created toast and returns its id, the caller's or else the generated one |
| ToastApi.ShowBlank | tests/unit/core/toast.test.ts:15-30 | `toast(message)` upserts a blank toast |
| ToastApi.ShowSuccess | tests/unit/core/toast.test.ts:32-39 | `toast.success` upserts a success toast |
| ToastApi.ShowError | tests/unit/core/toast.test.ts:32-39 | `toast.error` upserts an error toast |
| ToastApi.ShowLoading | tests/unit/core/toast.test.ts:32-39 | `toast.loading` upserts a loading toast |
| ToastApi.ShowCustom | tests/unit/core/toast.test.ts:32-39 | `toast.custom` upserts a custom toast |
| ToastApi.Dismiss | tests/unit/core/toast.test.ts:54-58 | `toast.dismiss` is the registry's dismiss |
| ToastApi.Remove | tests/unit/core/toast.test.ts:60-61 | `toast.remove` is the registry's remove |
| ToastApi.ShowFresh | tests/unit/core/toast.test.ts:15-30 | a call with a new id puts one toast in front with the given kind and message, visible, created now, never paused, and with role `status` / aria-live `polite` unless given; the older toasts follow in order, up to the cap |
| ToastApi.ShowExisting | tests/unit/core/toast.test.ts:41-52 | a call with a present id adds nothing: that toast takes the new kind, the message unless it is empty, visibility, and the call's time unless it is 0, and keeps its pause duration; the others stay as they were |
| ToastApi.SameIdOneToast | tests/unit/core/toast.test.ts:41-52 | two calls with the same new id leave one toast with that id, in front, carrying the second call's kind and message (the first call's message when the second is empty) |
| ToastApi.FreshCallsAreAdds | tests/unit/core/toast.test.ts:32-39 | calls whose ids are distinct and new are plain adds |
| ToastApi.FreshCallsNewestFirst | tests/unit/core/toast.test.ts:32-39 | any run of calls with distinct generated ids on an empty registry lists the last 20 of them, newest first |
| ToastApi.TypedCallsNewestFirst | tests/unit/core/toast.test.ts:32-39 | `success`, `error`, `loading` and `custom` in turn list the kinds custom, loading, error, success |
| ToastApi.DismissThenRemove | tests/unit/core/toast.test.ts:54-62 | dismissing a present toast keeps it, hidden, and keeps the size; removing it afterwards deletes exactly it |
| ToastApi.BlankWithDefaults | tests/unit/core/toast.test.ts:15-30 | `toast('Hello')` on an empty registry gives one blank, visible toast with the returned id, the message and the default accessibility pair |
| ToastApi.SameIdReused | tests/unit/core/toast.test.ts:41-52 | `success` then `error` with id `fixed` leave one toast: id `fixed`, type error, message `second` |
| ToastApi.DismissAndRemove | tests/unit/core/toast.test.ts:54-62 | after `dismiss(id)` the only toast is hidden; after `remove(id)` the registry is empty |
| Types.Apply | src/lib/core/store.test.ts:116-126 | models merging a patch into a toast: every supplied truthy field wins, falsy ones keep the prior value, the id stays; proved in `Types.ApplyIdempotent` and `Types.FullPatchOverrides` |
| Types.FullPatchReplaces | src/lib/core/store.test.ts:57-69 | upserting a toast over one with its id yields exactly the new toast if and only if every field the new toast leaves falsy or absent already has that value in the old one |
| Types.ResolveValue | tests/unit/core/types.test.ts:4-12 | a literal resolves to itself; a function resolves to its application to the argument |
| Types.LiteralIgnoresArgument | tests/unit/core/types.test.ts:5-7 | a literal resolves to the same value whatever the argument |
| Types.ResolveGreeting | tests/unit/core/types.test.ts:5-11 | `name => "hello " + name` at `toast` gives `hello toast`; `plain-text` with any argument gives `plain-text` |
| VerifyDist.IsLeakedTestArtifact | scripts/verify-dist.mjs:20-28 | models the path predicate: normalise the separators, then look for the test and spec markers; proved in `VerifyDist.LeakedIff` |
| VerifyDist.Normalize | scripts/verify-dist.mjs:21 | every backslash becomes a forward slash and every other character stays, at the same length |
| VerifyDist.NormalizeCanonical | scripts/verify-dist.mjs:21 | a normalised path has no backslash, and normalising twice equals normalising once |
| VerifyDist.NormalizeKeepsPlainOccurrences | scripts/verify-dist.mjs:21-24 | a pattern without separators occurs in the normalised path exactly when it occurs in the path as given |
| VerifyDist.LeakedIff | scripts/verify-dist.mjs:20-28 | a path is flagged exactly when the raw path contains `.test.` or `.spec.`, or the normalised path contains `/__tests__/` or `/tests/` |
| VerifyDist.DirectoryMarkers | scripts/verify-dist.mjs:25-26 | a `tests` or `__tests__` directory is flagged whichever separator stands on each side of it, `/` or `\`, alike or mixed |
| VerifyDist.FileMarkers | scripts/verify-dist.mjs:23-24 | a `.test.` or `.spec.` marker anywhere in the path is flagged |
| Text.ContainsIff | scripts/verify-dist.mjs:23-26 | the substring test holds exactly when the pattern occurs at some index |
| Text.ContainsParts | src/lib/core/store.test.ts:150-152 | each part of a concatenation is contained in it |

## Left out

- The `toast.promise` wrapper (tests/unit/core/toast.test.ts:64-110) is left out. It is promise settlement and asynchronous ordering, a thin bridge to `add` and `update`.
- Svelte stores, subscriptions and `get` are left out. Each mutation is modelled as producing the new state directly. The scheduler reacts by an explicit `Sync` call after each registry change the model makes.
- Real timers, `Date.now` and fake-timer control are left out. They become a logical clock: `now` parameters, and a `Tick` of one millisecond.
- Toaster.Tick: within one millisecond, the due removals fire before the due dismissal timers. Callbacks due at the same instant are not modelled in any other order.
- Toaster.Add: requires an id not yet present, which keeps the registry's ids unique, the invariant the scheduler relies on. An `add` of a present id is modelled only on the registry (`Store.Added`). The scheduler object is not specified for it.
- Store.DefaultDuration: the per-type default durations (4000 ms; success 2000 ms; loading never dismissed) are an assumed configuration table. No test fixes them.
- ToastApi.CreateToast: every kind gets role `status` and aria-live `polite` unless the caller gives a pair. Per-type accessibility defaults are not modelled, since only the blank toast's default is fixed by a test (tests/unit/core/toast.test.ts:15-30).
- Store.Added: an `add` whose id is already present puts a second toast with that id in front. This follows add's described behaviour (insert at the front, truncate to 20). The in-place merge for a repeated id is modelled by `Store.Upserted` and `Store.Updated`, which the facade uses.
- Id generation is left out. The facade takes the id it would generate (`freshId`), and distinctness of generated ids is a precondition where it matters.
- A toast's message is modelled as a string. `resolveValue` is modelled generically. A message held as a function of the toast is not stored in the record.
- JavaScript's `Infinity` duration is the `Infinite` constructor. Millisecond arithmetic is on unbounded integers, with no floating point.
- The CLI part of the distribution check is left out: `listFiles`, the directory walk, console output and the exit code (scripts/verify-dist.mjs:1-18, 30-49). Only the path predicate is modelled.
- Render-level hooks that only consume these operations are not part of this model. Neither are the Playwright end-to-end tests (tests/toast.spec.ts) or the build and test configuration (vite.config.js, playwright.config.ts).
- The implementation files (`src/lib/core/store.ts`, `use-toaster.ts`, `toast.ts`, `types.ts`) are not part of this model. Lines cited above are those of the unit tests that fix each behaviour.
