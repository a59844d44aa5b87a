# Dynamic layout drag engine, modelled in Dafny

The repository lets a user drag elements around inside a container. The
container's descendants that carry the `pr-draggable-element` attribute are
registered by id. A mousedown on one of them starts a drag. Each mousemove on
the container shifts that element's `left`/`top` offsets. A mouseup anywhere in
the document ends the drag. The engine exists twice:

- `src/dynamic-layout.js`, the framework-free `DynamicLayout`. A press starts a
  drag only when its target carries `pr-drag-handle`. The delta is the
  event's `movementX`/`movementY`. Every mouseup dispatches a
  `pr-dynamic-layout` event from the container.
- `src/angular-dynamic-layout.js`, the linking function of the `prGrid`
  directive. There is no handle check. The delta is the pointer's page
  position minus the last recorded one, and stopping emits nothing.

The model has five files:

- `wrappers.dfy`: `Option` and `Result`.
- `dom.dfy`: the element class (a constant `id`, mutable `left`/`top`), mouse
  events, array-like values and `Utils.toArray`, which both files share.
- `registry.dfy`: the registration pass both engines run, as a function, with
  the lemmas about it.
- `dynamic_layout.dfy`: class `Engine`, whose fields are `$$items`,
  `$$movingItem`, the two listener flags and a count of dispatched
  notifications.
- `angular_dynamic_layout.dfy`: class `Grid`, whose fields are the closure
  variables `items`, `movingItem` and `lastMouseLocation`, plus the listener
  flags.

Attaching and detaching listeners is modelled as boolean fields. `this` in
the plain engine's mousedown handler is a `Receiver` value: an element or
something else. The result of `querySelectorAll` is an `ArrayLike` input
parameter.

Behaviour of the code that the model keeps:

- A press while a drag is active replaces the moving item in both versions.
- The plain engine dispatches its notification on every mouseup, including
  when nothing was being dragged.
- The Angular engine emits no notification at all.
- The handle test looks only at the event target itself. A press on a child
  of the handle element does not start a drag.
- There is no teardown. The document mouseup listener is never removed.

## Model

| member | source | states |
|---|---|---|
| `Dom.ToArray` | src/dynamic-layout.js:44-50 | Throws exactly when the input is falsy or has no `length`. Otherwise it returns the same elements in the same order. The Angular copy at src/angular-dynamic-layout.js:22-28 is identical. |
| `Registry.RegisterCompleteIff` | src/dynamic-layout.js:96-101 | A registration pass over the found elements runs to the end if and only if every id is non-empty, not yet registered and distinct from every other id. |
| `Registry.RegisterContents` | src/angular-dynamic-layout.js:52-58 | After a successful pass the registry's keys are the old keys plus the elements' ids. Each element sits under its own id, earlier entries are kept, and the size grows by the number of elements. |
| `Registry.RegisterExtends` | src/dynamic-layout.js:98-101 | A pass only adds entries and never changes an existing one, including when it stops at a refused id. |
| `Registry.RegisterKeepsKeyedById` | src/angular-dynamic-layout.js:55-58 | If every registry entry sits under its own non-empty id before a pass, that still holds afterwards. |
| `Registry.RegisterAsWrittenCompleteIff` | src/dynamic-layout.js:98-101 | The registration pass with the guard as written completes if and only if the ids are admissible and none of them is a name inherited from `Object.prototype` (see Findings). |
| `Registry.InheritedNameRefusedAsWritten` | src/dynamic-layout.js:98 | One element with id `constructor` is admissible and the corrected pass registers it, but the guard as written refuses it (see Findings). |
| `DynamicLayout.Engine.constructor` | src/dynamic-layout.js:89-90 | The engine starts idle with an empty registry, no move listener and no notifications. The document mouseup listener of line 148 is attached. |
| `DynamicLayout.Engine.InitializeItem` | src/dynamic-layout.js:96-106 | With the corrected guard, throws exactly when the id is empty or already registered, and then leaves the registry unchanged. Otherwise it stores the element under its id and changes no other entry. |
| `DynamicLayout.Engine.RegisterItems` | src/dynamic-layout.js:150-151 | A non-array-like input throws and changes nothing. Otherwise the registry becomes the result of the registration pass, and the method throws exactly when the pass stops early. |
| `DynamicLayout.Engine.StartDrag` | src/dynamic-layout.js:108-122 | A press whose target lacks the handle changes nothing and throws nothing. With the handle and a non-element `this` it throws and changes nothing. Otherwise the element becomes the moving item, replacing any current one, and the move listener is attached. |
| `DynamicLayout.Engine.StopDrag` | src/dynamic-layout.js:124-131 | Always leaves the engine idle with the move listener detached. It counts exactly one more notification, including when already idle. The registry is unchanged. |
| `DynamicLayout.Engine.OnDrag` | src/dynamic-layout.js:133-141 | Adds the event's `movementX`/`movementY` to the moving item's `left`/`top`. No other registered item changes. |
| `DynamicLayout.DisplaceIsTotalMovement` | src/dynamic-layout.js:136-139 | Applying k moves one delta at a time shifts the offset by the sum of their movements. |
| `DynamicLayout.Engine.DragGesture` | src/dynamic-layout.js:108-139 | A press, k moves and a release from idle: with the handle, the item ends at its start offset plus the summed movements. Without it, the item does not move. Exactly one notification is counted and the engine ends idle. |
| `AngularDynamicLayout.Grid.constructor` | src/angular-dynamic-layout.js:42-50 | Empty registry, no moving item, no recorded mouse location, no move listener. The document mouseup listener is attached. |
| `AngularDynamicLayout.Grid.RegisterItems` | src/angular-dynamic-layout.js:52-64 | A non-array-like input throws and changes nothing. Otherwise the registry becomes the result of the registration pass, in document order, and the method throws exactly when the pass stops early on a missing or repeated id. |
| `AngularDynamicLayout.Grid.StartDrag` | src/angular-dynamic-layout.js:66-75 | Unconditionally makes the item the moving item, records the press's page position and attaches the move listener. |
| `AngularDynamicLayout.Grid.StopDrag` | src/angular-dynamic-layout.js:77-81 | Clears the moving item and detaches the move listener. It keeps the recorded location and emits nothing. When already idle it changes nothing. |
| `AngularDynamicLayout.Grid.OnDrag` | src/angular-dynamic-layout.js:83-96 | Shifts the moving item by the current page position minus the recorded one, then records the current position. No other registered item changes. |
| `AngularDynamicLayout.TrackTelescopes` | src/angular-dynamic-layout.js:86-94 | After moves at p1..pk following a press at p0, the offset has shifted by pk - p0 and pk is the recorded position. With no moves, nothing has shifted. |
| `AngularDynamicLayout.Grid.DragGesture` | src/angular-dynamic-layout.js:66-94 | A press at p0, moves at p1..pk and a release: the item ends at its pre-drag offset plus (pk - p0), the engine is idle and the registry is unchanged. |

## Left out

- `Utils.cancelEvent` (both files): it only sets flags on the DOM event. `onDrag` returns its `false`, and the model's `OnDrag` returns nothing.
- `Utils.dispatchEvent` and its placeholder payload: a notification is a counter in `Engine`.
- `Utils.getDimension` reads computed styles and is never called by the engine. `Utils.setStyle` is modelled as the direct write of `left`/`top`.
- `parseInt` and the `'px'` suffix: offsets, movements and page coordinates are unbounded integers. An unparseable offset gives `NaN` in the code. That is floating-point behaviour and is not modelled.
- The global `window.prDynamicLayout` conflict check and attribute constants, and the Angular module, directive and injection wiring. This is framework glue.
- Real listener management: `addEventListener`, `removeEventListener` and jqLite `on`/`off` become boolean flags. jqLite is not part of this model. If its `on` registers `onDrag` again on a second press and its `off` removes only one registration, then after press, press and release a mousemove still reaches `onDrag` with `movingItem` undefined, and line 93 of src/angular-dynamic-layout.js throws. `Grid.Valid()` ties the move listener to the moving item only because listeners are a flag.
- The mousedown listener each registered element receives (src/dynamic-layout.js:105, src/angular-dynamic-layout.js:63) is not a separate field. A press is modelled as a call to `StartDrag` on an element.
- `querySelectorAll` and `instanceof HTMLElement` become the `ArrayLike` input and the `Receiver` value.
- When registration throws, the JavaScript constructor or linking function throws, but the listeners already attached stay live. The model returns the error and keeps the partial registry, as `Registry.RegisterExtends` describes. Nothing further happens to that engine in the model.
- DynamicLayout.Engine.InitializeItem: uses the corrected guard. The code, looking the id up in an object literal, also throws for every id in `Registry.InheritedNames` (see Findings).
- DynamicLayout.Engine.RegisterItems: follows the corrected pass `Registry.Register`. The code also stops with an error at the first id in `Registry.InheritedNames`, as `Registry.RegisterAsWritten` does.
- AngularDynamicLayout.Grid.RegisterItems: follows the corrected pass `Registry.Register`. The code also stops with an error at the first id in `Registry.InheritedNames`, as `Registry.RegisterAsWritten` does.

## Findings

| source | as written | input that shows it | evidently intended | confidence | as-written member | corrected member |
|---|---|---|---|---|---|---|
| src/dynamic-layout.js:98 | `self.$$items[item.id]` reads an object literal, so ids inherited from `Object.prototype` look registered already | one draggable element with id `constructor` (also `toString`, `valueOf`, `__proto__`, ...) | only an id some registered element carries is a duplicate | high, not executed | `Registry.RegisterAsWrittenCompleteIff` | `Registry.RegisterCompleteIff` |
| src/angular-dynamic-layout.js:55 | `items[item.id]` reads an object literal, with the same effect | one draggable element with id `constructor` | only an id some registered element carries is a duplicate | high, not executed | `Registry.RegisterAsWrittenCompleteIff` | `Registry.RegisterCompleteIff` |

The as-written guard is `Registry.IdAcceptedAsWritten` and the pass built on it is `Registry.RegisterAsWritten`. `Registry.InheritedNameRefusedAsWritten` shows one such input. Both engines use the corrected `Registry.IdAccepted`.
