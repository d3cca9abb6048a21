# fred-js core in Dafny

A model of the sequential bookkeeping at the heart of the fred-js packages,
with proofs about it:

- **Event bus** (`event_bus.dfy`, module `EventBus`). For each event name, a
  list of listener records `(id, callback, options)` in registration order.
  - `on` appends a record under the next id of a counter shared by every bus.
  - `emit` calls every record of the event, in order, then drops the `once`
    records.
  - `off` removes the record with a given id, or every record with a given
    callback.
  - `clear` forgets everything.
  - The two static counters of the class (buses created, last listener id)
    are an explicit `Counters` value passed in and returned.
  - Callbacks are opaque tokens compared by equality, as `===` compares
    functions.
  - `emit` returns the list of invocations it made together with the new bus.
- **Selection model** (`selection_model.dfy`, module `SelectionModel`). An
  insertion-ordered map from `identifyBy(item)` to the item, stored as a
  sequence of `(key, item)` pairs. `AsMap` is the map it stands for.
  - Each operation returns the new model, the `change` events it emitted
    (`{added, removed}`), and the listener invocations that `emit` made on the
    model's own event bus.
  - The bulk operations `selectMultiple` and `deselectMultiple` are loops.
    Each loop is checked against an independent definition, `FirstOf`: the
    first item of each key that is new (or selected), read from the back.
- **Transition** (`transition.dfy`, module `Transition`). The `transition`
  animation driver as a state machine.
  - Inputs: the reduced-motion choice, the start time, then a sequence of
    animation frames (`Frame(time)`) and `cancel()` calls.
  - Output: the trace of callbacks (`render`, `onCanceled`, `onFinished`,
    `onCompleted`) and whether the `completed` promise has resolved.
  - Progress is computed as in the source, `clamp01(invLerp(time, start,
    start + duration))`, with JavaScript's division by zero (±Infinity, NaN)
    made explicit.
- **Rect and clamp** (`rect.dfy`, `clamp.dfy`). The rectangle edge
  accessors and predicates, and `clamp`/`clamp01`, over the reals. JavaScript
  computes the edges `x + width` and `y + height` in floating point, where a
  small size can be absorbed by a huge coordinate; "## Left out" names the
  statements that this affects.
- Helpers: `wrappers.dfy` (`Option`) and `decimal.dfy`. `decimal.dfy` renders
  a counter in decimal, as the template strings `event-bus-${n}` and
  `selection-model-${n}` do, and proves that the rendering reads back.

The bus invariant `EventBus.Valid` holds on every bus reachable from a new one:
- within each event, ids increase in registration order;
- every id is below the counter;
- no id appears under two events.

The statements about `emit` and `off` that need distinct ids are proved under
it.

## Model

| member | source | states |
|---|---|---|
| EventBus.NewBus | packages/event-bus/src/event-bus.ts:56-71 | the bus counter advances by one even when a name is given; without a name the bus is called `event-bus-` followed by the new count; the bus has no listeners and is valid under the counters |
| EventBus.On | packages/event-bus/src/event-bus.ts:79-95 | the returned id is the counter's next id, and the counter moves past it; exactly one record `(id, callback, options)` is appended to that event's list, and every other event is unchanged |
| EventBus.Remove | packages/event-bus/src/event-bus.ts:143-169 | the records kept are exactly the records that the removal condition does not select, never more than before; if nothing is selected the list is unchanged; an increasing list stays increasing |
| EventBus.Emit | packages/event-bus/src/event-bus.ts:103-116 | the calls are one per record of the event, in registration order, carrying the record's id and callback and the payload; afterwards exactly the non-`once` records remain; other events are untouched; with no `once` records the bus is unchanged |
| EventBus.Off | packages/event-bus/src/event-bus.ts:132-169 | afterwards the event holds exactly its records that do not match the id or callback; other events and the set of mapped events are unchanged; when nothing matches (including an unknown event) the bus is unchanged |
| EventBus.Clear | packages/event-bus/src/event-bus.ts:174-179 | every event has no records afterwards; the name is kept |
| EventBus.OnIdFresh | packages/event-bus/src/event-bus.ts:56-95 | the id `on` returns is above every id on any bus that is valid under the same counters, and such a bus stays valid after the counter advances, so ids are shared by all buses |
| EventBus.OnValid | packages/event-bus/src/event-bus.ts:79-95 | `on` preserves the bus invariant |
| EventBus.OffValid | packages/event-bus/src/event-bus.ts:132-169 | `off` preserves the bus invariant |
| EventBus.EmitValid | packages/event-bus/src/event-bus.ts:103-116 | `emit` preserves the bus invariant |
| EventBus.RunIssuesFreshIds | packages/event-bus/src/event-bus.ts:57-95 | over any sequence of `on`, `off`, `emit` and `clear`, the bus invariant holds throughout; the ids handed out are consecutive from the counter, so each is above every id issued before; `clear` does not reset the counter |
| EventBus.EmitCallsEachOnce | packages/event-bus/src/event-bus.test.ts:42-79 | on a valid bus one `emit` calls each record of the event exactly once |
| EventBus.RegisteredTwiceCalledTwice | packages/event-bus/src/event-bus.test.ts:123-137 | registering the same callback n times adds n records, and one `emit` then calls that callback n more times |
| EventBus.OffIdRemovesOne | packages/event-bus/src/event-bus.ts:157-169 | `off(event, id)` on a valid bus removes exactly the one record with that id; every other record stays, in order, including records with the same callback |
| EventBus.OffCallbackSilences | packages/event-bus/src/event-bus.ts:143-155 | after `off(event, callback)`, emitting the event does not call that callback at all |
| EventBus.ClearSilencesEverything | packages/event-bus/src/event-bus.test.ts:164-186 | after `clear`, emitting any event calls nothing, and clearing twice is the same as clearing once |
| EventBus.SpentOnceIsGone | packages/event-bus/src/event-bus.ts:106-110 | an `emit` that reaches a `once` record calls it exactly once, and no record with its id is left |
| EventBus.GoneStaysGone | packages/event-bus/src/event-bus.ts:132-179 | an issued id that is no longer registered is never called again, whatever sequence of operations follows |
| EventBus.OnceCalledAtMostOnce | packages/event-bus/src/event-bus.ts:103-116 | a record registered with `once` is called at most once over any sequence of operations |
| EventBus.OnceListenerRunsAtMostOnce | packages/event-bus/src/event-bus.test.ts:145-162 | a listener just registered with `once` runs at most once, however many emits and other operations follow |
| SelectionModel.AsMap | packages/selection-model/src/selection-model.ts:44 | the stored pairs stand for a map whose keys are exactly the stored keys |
| SelectionModel.SizeOfMap | packages/selection-model/src/selection-model.ts:44 | with distinct keys, the sequence is exactly as long as the map has entries |
| SelectionModel.Put | packages/selection-model/src/selection-model.ts:72 | `Map.set`: afterwards the key is present; a new key is appended at the end; a present key keeps the length |
| SelectionModel.PutAsMap | packages/selection-model/src/selection-model.ts:72 | on the map it stands for, `Put` is map update |
| SelectionModel.PutInPlace | packages/selection-model/src/selection-model.ts:72 | with distinct keys, setting a present key replaces that entry in its position and touches no other |
| SelectionModel.Without | packages/selection-model/src/selection-model.ts:82 | `Map.delete`: no dropped key is left, the keys are the old ones minus the dropped ones, and dropping absent keys changes nothing |
| SelectionModel.WithoutAsMap | packages/selection-model/src/selection-model.ts:82 | on the map it stands for, `Without` is key removal |
| SelectionModel.AddAll | packages/selection-model/src/selection-model.ts:103-109 | the loop appends the entries of exactly the items it reports, in order, and the keys afterwards are the old keys plus all the items' keys |
| SelectionModel.AddAllAddsFirstNew | packages/selection-model/src/selection-model.ts:101-111 | the items the loop reports are exactly the first item of each key not selected before, in input order, so later duplicates are skipped |
| SelectionModel.RemoveAll | packages/selection-model/src/selection-model.ts:120-126 | the loop leaves exactly the selection without any of the items' keys |
| SelectionModel.RemoveAllRemovesFirstSelected | packages/selection-model/src/selection-model.ts:118-128 | the items the loop reports are exactly the first item of each selected key, in input order |
| SelectionModel.FirstOfCons | packages/selection-model/src/selection-model.ts:103-109 | the back-to-front reference definition agrees with a front-to-back reading that carries the set of selected keys along, as the loops do |
| SelectionModel.New | packages/selection-model/src/selection-model.ts:38-44 | a new model has an empty selection and a new bus named `selection-model-` followed by the model counter, which advances by one; of the shared counters only the bus count advances, so the listener counter is untouched; the bus has no listeners and is valid |
| SelectionModel.NewKeysByItself | packages/selection-model/src/selection-model.ts:39 | the default key function of a new model is the identity, `(item) => item` |
| SelectionModel.FirstModelName | packages/selection-model/src/selection-model.ts:38-43 | the model counter starts at `InitialModelCount`, 0, because the source's counter starts at -1 and is incremented before use; so the first model's bus is `selection-model-0` |
| SelectionModel.IdentifyBy | packages/selection-model/src/selection-model.ts:49-52 | later operations use the new key function; stored entries and listeners are kept |
| SelectionModel.Publish | packages/selection-model/src/selection-model.ts:73 | installs the new selection and emits exactly one `change` event, delivered to every `change` listener of the model's bus in registration order |
| SelectionModel.IsSelected | packages/selection-model/src/selection-model.ts:135-137 | an item is selected exactly when its key is in the map |
| SelectionModel.Select | packages/selection-model/src/selection-model.ts:69-74 | always one event `{added: [item], removed: []}`, delivered to every `change` listener in order; on the map this is an update; a new key is appended; a present key keeps its position and its item is replaced; keys stay distinct |
| SelectionModel.Deselect | packages/selection-model/src/selection-model.ts:79-85 | afterwards the item is not selected; if it was, its key is removed and one event `{added: [], removed: [item]}` is delivered carrying the argument item; if it was not, nothing changes and nothing is emitted |
| SelectionModel.Toggle | packages/selection-model/src/selection-model.ts:57-64 | is exactly `deselect` for a selected item and `select` otherwise, so their contracts carry over; it flips whether the item is selected; a selected item's key is removed from the map and `{added: [], removed: [item]}` is delivered to every `change` listener; an unselected item is appended and `{added: [item], removed: []}` is delivered |
| SelectionModel.Clear | packages/selection-model/src/selection-model.ts:90-94 | the selection becomes empty, and one event is delivered whose `removed` is the previous selection in order, even when that is empty |
| SelectionModel.SelectMultiple | packages/selection-model/src/selection-model.ts:101-111 | one event, even when empty, whose `added` is the first item of each key not yet selected; those items are appended in input order under their keys; the keys afterwards are the old keys plus every item's key |
| SelectionModel.DeselectMultiple | packages/selection-model/src/selection-model.ts:118-128 | one event whose `removed` is the first item of each selected key among the items; the selection afterwards is the old one without all the items' keys |
| SelectionModel.GetSelectedItems | packages/selection-model/src/selection-model.ts:142-144 | one item per selected key, in insertion order; each is what the map holds for that key |
| SelectionModel.SelectionCount | packages/selection-model/src/selection-model.ts:201-203 | the count is the length of `getSelectedItems`, and with distinct keys the size of the map |
| SelectionModel.HasSelection | packages/selection-model/src/selection-model.ts:180-182 | holds exactly when the count is above 0 |
| SelectionModel.HasSingleSelection | packages/selection-model/src/selection-model.ts:187-189 | holds exactly when the count is 1 |
| SelectionModel.HasMultipleSelection | packages/selection-model/src/selection-model.ts:194-196 | holds exactly when the count is above 1 |
| SelectionModel.Destroy | packages/selection-model/src/selection-model.ts:149-152 | the selection is empty and no event has listeners; the bus keeps its name; nothing is emitted |
| SelectionModel.On | packages/selection-model/src/selection-model.ts:157-163 | registers on the model's bus under `change`, with the next id of the shared listener counter, which moves past it; other events are unchanged; a valid bus stays valid under the advanced counter; the bus name and the selection are unchanged |
| SelectionModel.Off | packages/selection-model/src/selection-model.ts:168-175 | the `change` listeners afterwards are exactly those that do not match, still in increasing id order; other events, the bus name and the selection are unchanged; when nothing matches the model is unchanged |
| SelectionModel.OffKeepsValid | packages/selection-model/src/selection-model.ts:168-175 | `off` keeps the bus valid under the same counters |
| SelectionModel.ToggleTwiceRestores | packages/selection-model/src/selection-model.test.ts:29-38 | toggling an unselected item twice restores the selection exactly |
| SelectionModel.DeselectUndoesSelect | packages/selection-model/src/selection-model.ts:69-85 | `select` then `deselect` of the same item leaves what `deselect` alone would |
| SelectionModel.SelectMultipleTwiceAddsNothing | packages/selection-model/src/selection-model.ts:101-111 | selecting the same items again adds nothing but still emits `{added: [], removed: []}` |
| SelectionModel.SelectAllThenDeselectAll | packages/selection-model/src/selection-model.test.ts:145-180 | on an empty selection, selecting items with distinct keys reports all of them as added; deselecting the same items then reports all of them as removed and leaves nothing selected |
| SelectionModel.AddTwoRemoveOne | packages/selection-model/src/selection-model.ts:79-111 | on an empty selection, `selectMultiple([a, b])` with different keys and then `deselect(a)` emit `{added: [a, b]}` then `{removed: [a]}` and leave `[b]` |
| SelectionModel.NewModelAddTwoRemoveOne | packages/selection-model/src/selection-model.ts:39-111 | the same on a new model, which keys items by themselves, so any two different items have different keys |
| SelectionModel.OffIdNotCalled | packages/selection-model/src/selection-model.ts:168-175 | after `off('change', id)`, no call made by a following `select` or `deselect` goes to a listener with that id |
| SelectionModel.RemovedListenerNotCalled | packages/selection-model/src/selection-model.test.ts:182-203 | on a new model, a `change` listener is called once by `select` with `{added: [item], removed: []}`; after `off('change', id)` the `deselect` still reports `{added: [], removed: [item]}` but calls no listener |
| Transition.Divide | packages/math/src/lerp/inv-lerp.ts:11 | JavaScript division of finite numbers: exact for a non-zero divisor; dividing by zero gives +Infinity, -Infinity or NaN according to the sign of the dividend |
| Transition.InvLerp | packages/math/src/lerp/inv-lerp.ts:10-12 | for a non-empty range the result is finite, and interpolating with it gives back the value |
| Transition.Clamp01 | packages/math/src/clamp/clamp.ts:19-21 | on numbers: a finite value in [0, 1] is kept, one below 0 gives 0 and one above 1 gives 1; the infinities go to the bounds; NaN stays NaN |
| Transition.BelowOne | packages/animation/src/transition.ts:94 | `t < 1`: for a finite progress exactly when it is below 1; -Infinity is below; +Infinity and NaN are not, so a NaN progress finishes the run |
| Transition.Progress | packages/animation/src/transition.ts:88 | for a non-zero duration the raw progress is a number in [0, 1]; for a positive duration it is 0 before the start and `(time - start) / duration` within the animation; for a zero duration it is NaN exactly at the start time, 1 after it and 0 before it |
| Transition.ProgressReachesOne | packages/animation/src/transition.ts:88 | with a positive duration the progress is 1 from `start + duration` on |
| Transition.ProgressMonotone | packages/animation/src/transition.ts:88 | with a positive duration the progress never decreases as frame times increase |
| Transition.Start | packages/animation/src/transition.ts:62-78 | the reduced branch is taken exactly when reduced motion is both respected and preferred; then the trace is `render(1)`, `onFinished`, `onCompleted`, the promise is resolved, and no frame is scheduled; otherwise nothing is called and one frame is scheduled |
| Transition.CancelRun | packages/animation/src/transition.ts:69-108 | in the reduced branch (lines 69-71) every `cancel()` calls `onCanceled` and changes nothing else; otherwise (lines 106-108) `cancel()` only sets the flag, calling nothing |
| Transition.FrameStep | packages/animation/src/transition.ts:80-101 | a frame that sees the flag calls `onCanceled` then `onCompleted` and nothing else, without rendering; otherwise it first renders the eased progress; another frame is scheduled exactly when the run was not canceled and the progress is below 1, and then nothing else is called; when no frame is scheduled the promise is resolved, and an uncanceled run calls `onFinished` then `onCompleted` after the render |
| Transition.RunAll | packages/animation/src/transition.ts:80-109 | a sequence of frames and cancels only appends to the trace, never un-resolves the promise, and keeps the branch, start and duration; frames alone do nothing to a run with no frame scheduled |
| Transition.Step | packages/animation/src/transition.ts:80-109 | an input only appends to the trace; a resolved run stays resolved; a frame time with no frame scheduled does nothing |
| Transition.StartValid | packages/animation/src/transition.ts:62-80 | `transition` starts in the invariant: the reduced branch trivially, the normal branch with an empty trace, one frame scheduled and the promise unresolved |
| Transition.StepValid | packages/animation/src/transition.ts:75-109 | on the normal path each input keeps the invariant: the promise is resolved exactly when no frame is scheduled, the trace holds only renders before resolution, and after it renders followed by one outcome and `onCompleted` |
| Transition.RunValid | packages/animation/src/transition.ts:75-109 | the invariant holds after any sequence of frames and cancels |
| Transition.ExactlyOneOutcome | packages/animation/src/transition.ts:77-108 | a resolved normal run called exactly one of `onFinished` and `onCanceled`, and `onCompleted` exactly once, as the last callback |
| Transition.NoOutcomeWhileRunning | packages/animation/src/transition.ts:94-95 | an unresolved normal run has called no lifecycle callback |
| Transition.NothingAfterCompletion | packages/animation/src/transition.ts:104-109 | after resolution, later frames and `cancel()` calls add nothing to the trace |
| Transition.CancelBeforeFirstFrame | packages/animation/src/transition.ts:81-86 | on the normal path, cancelling before the first frame gives the trace `onCanceled`, `onCompleted`, with no render, and resolves; whatever inputs follow add nothing |
| Transition.RunAllAppend | packages/animation/src/transition.ts:80-109 | running two input sequences one after the other is running their concatenation |
| Transition.LateFrameFinishes | packages/animation/src/transition.ts:88-100 | a frame at or after `start + duration` renders the eased value of progress 1, then calls `onFinished` and `onCompleted`, resolves and schedules nothing |
| Transition.ReducedTrace | packages/animation/src/transition.ts:63-73 | the whole reduced-motion trace is `render(1)`, `onFinished`, `onCompleted`, then one `onCanceled` per `cancel()` call |
| Clamp.Max | packages/math/src/clamp/clamp.ts:10 | `Math.max` on non-NaN numbers: the result is one of the arguments and at least both |
| Clamp.Min | packages/math/src/clamp/clamp.ts:10 | `Math.min` on non-NaN numbers: the result is one of the arguments and at most both |
| Clamp.Clamp | packages/math/src/clamp/clamp.ts:9-11 | with `min <= max` the result lies in [min, max]; a value inside is kept; below `min` gives `min`; above `max` gives `max`; if `max < min` the result is `max` |
| Clamp.Clamp01 | packages/math/src/clamp/clamp.ts:19-21 | the result lies in [0, 1]; values inside are kept; values below 0 give 0 and values above 1 give 1 |
| Clamp.ClampIdempotent | packages/math/src/clamp/clamp.ts:9-11 | clamping twice is clamping once |
| Clamp.ClampMonotone | packages/math/src/clamp/clamp.ts:9-11 | clamping preserves the order of values |
| Clamp.ClampExamples | packages/math/src/clamp/clamp.test.ts:5-47 | the expected values of the clamp tests |
| Rect.Area | packages/math/src/rect/rect.ts:17-19 | the area is not negative when both sides are not negative, and is 0 when either side is 0 |
| Rect.Right | packages/math/src/rect/rect.ts:50-52 | the right edge is not left of the left edge when the width is not negative, and not right of it when the width is not positive |
| Rect.Bottom | packages/math/src/rect/rect.ts:61-63 | the bottom edge is not above the top edge when the height is not negative, and not below it when the height is not positive |
| Rect.PointInside | packages/math/src/rect/rect.ts:72-79 | only a rectangle of non-negative size has points inside it, and such a rectangle has its own top-left corner inside |
| Rect.Contains | packages/math/src/rect/rect.ts:89-96 | a rectangle that contains another has every point of the other inside it; for an other of non-negative size the converse holds too |
| Rect.Intersects | packages/math/src/rect/rect.ts:106-113 | intersecting rectangles of non-negative size share a point, the centre of their overlap; intersecting rectangles have positive total width and total height |
| Rect.PointInsideEdges | packages/math/src/rect/rect.ts:72-79 | a point is inside exactly when it lies between the left and right edges and between the top and bottom edges, inclusively |
| Rect.CornersInside | packages/math/src/rect/rect.ts:72-79 | because the bounds are closed, all four corners of a rectangle of non-negative size are inside it |
| Rect.ContainsReflexive | packages/math/src/rect/rect.ts:89-96 | every rectangle contains itself |
| Rect.ContainsTransitive | packages/math/src/rect/rect.ts:89-96 | containment is transitive |
| Rect.ContainedPointsInside | packages/math/src/rect/rect.ts:72-96 | a point inside a contained rectangle is inside the containing one |
| Rect.IntersectsSymmetric | packages/math/src/rect/rect.ts:106-113 | intersection is symmetric |
| Rect.SharedEdgeDoesNotIntersect | packages/math/src/rect/rect.ts:106-113 | rectangles that only touch along an edge do not intersect, because the comparisons are strict |
| Rect.ContainedIntersects | packages/math/src/rect/rect.ts:89-113 | a rectangle intersects every rectangle of positive size that it contains |
| Rect.RectExamples | packages/math/src/rect/rect.test.ts:6-55 | the expected values of the rect tests |
| Decimal.Show | packages/event-bus/src/event-bus.ts:59 | the rendering of a counter in `event-bus-${n}` and `selection-model-${n}`: a non-empty string of decimal digits with no leading zero |
| Decimal.ValueOfShow | packages/event-bus/src/event-bus.ts:59 | the decimal rendering of a counter reads back as the counter |
| Decimal.PrefixedNamesDistinct | packages/selection-model/src/selection-model.ts:41-43 | generated names with different counters differ, so every generated bus name is unique |

## Left out

- Logging: the `log` option writes a `console.table` diagnostic in `emit` (`event-bus.ts:111-124`). This is output only. `log` is kept as a record field and does not affect the state.
- Re-entrancy: listeners that call `on`, `off`, `emit` or `clear` while an `emit` is running, and listeners that throw. The model calls listeners as opaque tokens, so JavaScript `Set` iteration under mutation is not modelled.
- Transition callbacks: `render`, `onFinished`, `onCanceled` and `onCompleted` are taken to return normally. In JavaScript a throw from `render(1)` in the reduced branch makes `transition()` itself throw. A throw from a frame's `render` or `onFinished` ends the frame before `onCompleted` and `resolve()`, so `completed` never settles and `Transition.ExactlyOneOutcome` does not apply.
- Host services: `requestAnimationFrame`, `performance.now`, the `Promise` and the reduced-motion media query (`prefers-reduced-motion.ts`) become inputs.
  - Frames arrive as explicit `Frame(time)` inputs.
  - The start time and the preference are parameters.
  - The promise is the `resolved` flag.
  - `render` and the optional callbacks are recorded in a trace rather than called. A callback that is not supplied (`?.()`) is recorded all the same.
- Easing and rounding: the easing function and the rounding to 4 decimals (`transition.ts:89-90`) are left opaque. A render records the raw progress it was computed from, except the literal `1` of the reduced-motion branch.
- Transition.Progress: time and duration are reals.
  - `(start + duration) - start` is taken to equal `duration`, which IEEE rounding does not guarantee.
  - NaN and infinite start times and durations are not modelled. The ±Infinity and NaN results of dividing by a zero duration are modelled.
- Clamp.Clamp: NaN and ±Infinity inputs to `clamp` and to the rect functions are not modelled. Values are reals.
- Rect.Area: states only the sign of the area, not that it equals `width * height`, because that equality is the function's definition. The tests' expected values are in `Rect.RectExamples`.
- Rect.Right: states only the direction of the edge relative to `x`, for the same reason.
- Rect.Bottom: states only the direction of the edge relative to `y`, for the same reason.
- Rect.ContainedIntersects: holds over the reals only. In floating point `x + width` can equal `x` for a positive width when `x` is huge (`x = 2^60`, `width = 1`). Then a rectangle contains itself but does not intersect itself. The same absorption can make `Rect.Right` and `Rect.Bottom` equal the left or top edge for a non-zero size.
- Rect.PointInside: "only a rectangle of non-negative size has points inside it" holds over the reals only. In floating point `x + width` can equal `x` for a negative width when `x` is huge: the rectangle `{x: 2^60, y: 0, width: -1, height: 0}` has the point `(2^60, 0)` inside it. The top-left-corner statement fails for the same rectangle.
- Rect.Intersects: the shared point `OverlapCentre` is computed over the reals; in floating point the halving may round onto an edge.
- EventBus.RunIssuesFreshIds: listener ids and the bus and model counters are unbounded naturals. In JavaScript they are numbers, and `++` stops changing a number above 2^53, so ids would repeat after that many registrations. This freshness statement, and `EventBus.OnIdFresh`, hold only below that bound.
- Top and left: `top` and `left` are plain field reads (`Rect.Top`, `Rect.Left`) with no contract of their own. They are used by every rect statement above.
- rect.test.ts names: `rect.test.ts:40` and `:47` call `isPointInside` and `isInsideOther`, which `rect.ts` does not export. The model follows `pointInside` and `contains` as written and takes only the tests' expected values.
- `contains` direction: the doc comment of `contains` (`rect.ts:82-88`) describes the opposite direction from the code. The model follows the code (`other` inside `rect`), as the test does.
- Key equality: the selection model compares keys with SameValueZero (`Map` semantics on `unknown` keys). The model compares them with Dafny equality on a key type with equality.
- Unmodelled math: `vec-2d.ts`, `round.ts`, `lerp.ts`, `remap.ts` and the `mod.ts` re-export modules are not part of this model. `invLerp` is modelled only as far as the transition uses it.
- The demo app is not part of this model.
