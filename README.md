# rollover.js: the enter/leave engine, modelled in Dafny

rollover.js exposes `set(selector, enter, leave)` and `unset(selector, enter, leave)`.
They attach and detach `mouseenter`/`mouseleave` handlers for the elements a CSS
selector resolves to. There are three modes, fixed at load time:

- **jQuery present**: everything is delegated to jQuery.
- **Native**: the browser has native `mouseenter`/`mouseleave` support. The raw
  callbacks are attached to those events.
- **Synthesis**: `set` wraps each callback in a handler made by
  `generatePolyfillEvent_`. The handler walks `event.relatedTarget` up its
  `parentNode` chain and calls the callback only when the walk never reaches the
  bound element. The wrapper is attached to `mouseover`/`mouseout`. `set` then
  pushes a record onto the module-level array `addedEvents`, so that `unset` can
  later find the record.

The project has six modules:

- `Wrappers` holds an `Option`.
- `Dom` holds the document tree: a parent map, plus a depth map that proves
  acyclicity. It also holds the `parentNode` chain (`Chain`) and the k-th
  ancestor (`Up`).
- `Boundary` holds the wrapper's walk (`Filter`, a loop whose measure is the
  node's depth) and the handler exactly as written (`LiteralLoop`, then
  `LiteralHandler`).
- `Registry` holds the records of `addedEvents` and the registry's change under
  `unset` (`RemoveFirst`, `RemoveEach`).
- `Rollover` holds the `Engine` class:
  - `addedEvents` and the wrappers made so far (`closures`; a wrapper's identity
    is its index) are fields.
  - The host's listener table is a ghost set of (element, event type, handler)
    triples.
  - `Set` and `Unset` are loops over the resolved elements.
  - `Valid()` is the engine invariant: records exist only in synthesis mode,
    every record holds wrappers for its own element and callbacks, and wrappers
    are attached only to `mouseover`/`mouseout` of their own element.
- `Scenarios` holds client methods, some on a fresh engine and some on any
  engine in a stated mode and state. Each one derives a caller-visible outcome
  from the contracts alone.

The selector engine, the capability probe and jQuery are inputs:

- the resolved elements are a `seq<Elem>`;
- the mode comes from the constructor's `jquery` and `hasEvent` arguments;
- a callback is an opaque identity, with `None` for an argument that is not a
  function.

Behaviour of the code as written that the model keeps or exposes:

- **`polyfillEnter`/`polyfillLeave` (rollover.js:96)** are declared once per
  `set` call and carried across iterations. But `enter` and `leave` do not
  change during a call, so a slot whose argument is not a function is never
  assigned. Its record always holds `undefined`. A wrapper left over from an
  earlier element is never stored. This is a loop invariant of
  `Engine.SetSynthesized` and part of `Describes`.
- **Detach uses the wrong event types.** `unset` in synthesis mode detaches the
  wrappers from `mouseenter`/`mouseleave` (rollover.js:184, 188). They were
  attached to `mouseover`/`mouseout` (rollover.js:124, 129). The model keeps
  the event types as written. `Engine.Unset` then proves that synthesis-mode
  `unset` leaves the listener table unchanged. `Scenarios.LeakAfterUnset` shows
  the result: after `set` and `unset` the registry is empty, but `f` still
  fires. That outcome rests on both corrections below: the walk that stops at
  `null`, and the splice on `addedEvents`. As written, this `unset` throws at
  rollover.js:191, and the attached wrapper throws at rollover.js:73 instead of
  calling `f`.
- **Matching by element only.** `unset` is documented as removing the handlers
  passed as `enter`/`leave` (rollover.js:148-149). The scan matches by element
  only (rollover.js:178): the first record for the element is removed, whatever
  its callbacks. The callbacks decide only which detach calls are made
  (rollover.js:182, 186). The model
  follows the code (`Registry.RemoveFirst` takes no callbacks;
  `Scenarios.UnsetWithOtherCallback`). So "unset with a different callback is a
  no-op" does not hold of the code. Neither does "nothing fires after unset".
- **Typo at rollover.js:191.** The code splices `addedEvent`, which is not
  declared; in strict mode that is a ReferenceError. The model performs the
  intended `addedEvents.splice(n, 1)`.
- **Undeclared `len` at rollover.js:166.** It is assigned in native-mode
  `unset` and also throws in strict mode. The model performs the intended loop.
- **The walk has no `null` test (rollover.js:72-74).** The model's walk stops
  at `null` and calls the callback. This departs from the literal loop, which
  is kept as `Boundary.LiteralHandler`; see "## Findings".

## Model

| member | source | states |
|---|---|---|
| `Dom.ChainFollowsParents` | rollover.js:72-74 | The walk starts at `relatedTarget`. Each next node is the previous node's `parentNode`. It ends at a node whose parent is `null`, and it is empty exactly when `relatedTarget` is `null`. |
| `Dom.ChainIsAncestry` | rollover.js:72-74 | The k-th node the walk meets is the k-th ancestor of `relatedTarget`. Past the chain's end every ancestor is `null`. |
| `Dom.AncestorIffInChain` | rollover.js:72-77 | The walk meets `element` if and only if `element` is `relatedTarget` or one of its ancestors. |
| `Dom.ChainDecreases` | rollover.js:72-74 | Depth strictly decreases along the walk. So no node is visited twice, and the walk takes at most depth + 1 steps, which is why it terminates. |
| `Boundary.Filter` | rollover.js:68-85 | The wrapper suppresses the callback if and only if `element` is `relatedTarget` or one of its ancestors. Otherwise it calls `fn` exactly once, with the same event object. It changes no state. The nodes it compares are a prefix of the `parentNode` chain. When suppressing, it stops at the first occurrence of `element`; when firing, it has walked the whole chain to `null`. |
| `Boundary.LiteralLoopExit` | rollover.js:72-74 | The loop as written leaves only with `parent === element`. It leaves exactly when `element` is on the chain from the starting node; otherwise it reads `parentNode` of `null`. |
| `Boundary.LiteralHandlerNeverCalls` | rollover.js:69-84 | The handler as written never reaches `fn(event)`. It returns early exactly when the crossing is internal. Otherwise it dereferences `null`, including when `relatedTarget` is `null`. |
| `Registry.RemoveFirst` | rollover.js:177-193 | Handling one element in `unset`: if no record has that element, the registry is unchanged. Otherwise exactly the lowest-index record for that element is spliced out, and all other records keep their order. |
| `Registry.RemoveFirstCount` | rollover.js:177-193 | One `unset` step removes one record for the element if there is one. Every other element's record count is unchanged, and the length drops by exactly one when a record matched. |
| `Registry.RemoveEachCount` | rollover.js:176-195 | `unset` over a list of elements removes, for each element x, as many records of x as x occurs in the list, but never more than exist. |
| `Registry.RoundTrip` | rollover.js:176-195 | Take distinct elements with no records. `unset` on the records that `set` appended for them returns the registry to exactly its previous contents. |
| `Rollover.NoWrapperOnEnterLeave` | rollover.js:122-130 | Under the engine invariant, no wrapper is ever registered on `mouseenter` or `mouseleave`. |
| `Rollover.Engine.constructor` | rollover.js:34-40 | A new engine has its mode fixed from the probe and jQuery, an empty `addedEvents`, no wrappers and no listeners. |
| `Rollover.Engine.AddEvent` | rollover.js:44-46 | `addEvent_` puts exactly the (element, type, function) listener into the table. |
| `Rollover.Engine.RemoveEvent` | rollover.js:47-49 | `removeEvent_` removes exactly the listener with that element, type and function. Nothing else changes. |
| `Rollover.Engine.Generate` | rollover.js:67-68 | `generatePolyfillEvent_` makes a new wrapper, distinct from all earlier ones, closing over the element and `fn`. |
| `Rollover.Engine.Set` | rollover.js:95-142 | In jQuery mode nothing changes. In native mode, exactly the raw callbacks that are functions are attached to `mouseenter`/`mouseleave` of each element, and the registry is untouched. In synthesis mode the `SynthesizedEffect` holds (see `SetSynthesized`). The invariant is kept in every mode. |
| `Rollover.Engine.SetNative` | rollover.js:109-118 | The listener table grows by exactly `NativeListeners(elements, enter, leave)`. |
| `Rollover.Engine.SetSynthesized` | rollover.js:119-141 | Existing records are unchanged. Exactly one record per element is appended, in resolution order, including when neither argument is a function. Each record holds its element, the original `enter`/`leave`, and a wrapper exactly in the slots that are functions. Each wrapper is new, wraps that element and callback, and is attached on `mouseover` for enter or `mouseout` for leave. Earlier elements' wrappers are made first. The wrappers made during the call are exactly those the new records hold, and the listener table grows by exactly these wrappers. |
| `Rollover.Engine.Wrap` | rollover.js:122-130 | One loop iteration: a new wrapper on `mouseover` if `enter` is a function, and on `mouseout` if `leave` is. The wrappers made are exactly these. A slot that is not a function keeps its previous value. |
| `Rollover.Engine.Unset` | rollover.js:151-197 | In jQuery mode nothing changes. In native mode exactly `NativeListeners(elements, enter, leave)` are removed. In synthesis mode the registry becomes `RemoveEach(old registry, elements)`, and the listener table is unchanged because detach names the wrong event types. The wrappers are never touched. |
| `Rollover.Engine.UnsetNative` | rollover.js:164-173 | The listener table shrinks by exactly `NativeListeners(elements, enter, leave)`. |
| `Rollover.Engine.UnsetSynthesized` | rollover.js:174-196 | For each element in order, the forward scan removes the first record for that element, or nothing if there is none. The listener table is unchanged. |
| `Scenarios.SetThenUnset` | rollover.js:121-195 | Take distinct elements with no records, in synthesis mode. `set` then `unset` with the same callbacks leave the registry as it was, while every wrapper `set` attached stays attached. |
| `Scenarios.LeakAfterUnset` | rollover.js:182-191 | With the walk stopping at `null` and the intended splice, after `set(e, f, g)` and `unset(e, f, g)` the registry is empty. Yet a `mouseover` on `e` from outside `e` still calls `f`. |
| `Scenarios.DuplicateRegistration` | rollover.js:177-193 | Call `set` twice with the same element and callbacks, then `unset` once. Both records describe `e`, `f` and `g`, and the first one's wrappers were made before the second's. Exactly the second record remains. The wrappers of both stay attached. |
| `Scenarios.UnsetWithOtherCallback` | rollover.js:178-191 | `unset` with an `enter` other than the registered one still removes the element's record. The registered wrappers stay attached. |
| `Scenarios.PartialRegistration` | rollover.js:121-139 | `set(e, f, undefined)` pushes one record. It has an enter wrapper, no leave wrapper, and no `mouseout` listener. |
| `Scenarios.NativeSet` | rollover.js:109-118 | In native mode with no listeners, after `set(e, f)` a `mouseenter` on `e` calls exactly `f`, once, with that event. The registry stays empty. |
| `Scenarios.NativeUnset` | rollover.js:164-173 | In native mode, after `unset(e, f)` a `mouseenter` on `e` no longer calls `f`. From the state `NativeSet` leaves, it calls nothing and the listener table is empty. |

## Left out

- The AMD/global export shim and the optional `require('jquery')` (rollover.js:14-31) are module-loading plumbing.
- The jQuery branches (rollover.js:98-105, 154-160) are calls into a foreign library. They are modelled only as a mode in which the engine changes nothing.
- The capability probe (rollover.js:35-38) queries `window` and `document`. Its result is the constructor argument `hasEvent`.
- `document.querySelectorAll` (rollover.js:107, 162) is an external selector engine. Its result is the `elements` argument.
- The real `addEventListener`/`attachEvent` and their `remove`/`detach` counterparts (rollover.js:42-58) are modelled only as adding or removing a triple in the listener table. There is no ordering and no duplicate registration: `attachEvent` can register the same function twice, and the set cannot express that.
- The browser's event dispatch and propagation are host behaviour. `Rollover.Fired` says only which registered handlers run when an event of one type reaches one element, and with which event.
- The ReferenceErrors of strict mode at rollover.js:166 and rollover.js:191 are not modelled. The intended behaviour is used instead, because the model does not treat exceptions.
- JavaScript `===` between two different non-function values (say `1` and `'a'`) is false. The model writes every non-function argument as `None`. This affects only whether `unset` attempts to detach an `undefined` wrapper, which removes nothing.
- Listeners that other code has put on the page are not modelled. A new engine's listener table starts empty.
- Mutation of the DOM during a dispatch is not modelled. The tree is a fixed input to each event.

## Findings

| source | as written | input that shows it | evidently intended | confidence | as-written member | corrected member |
|---|---|---|---|---|---|---|
| rollover.js:72-74 | `while (parent !== element) parent = parent.parentNode;` has no test for `null`. The loop leaves only when `parent === element`, so `fn(event)` at line 84 is unreachable. | A `mouseover` whose `relatedTarget` is `null` (the pointer comes from outside the window), or any related target outside the element's subtree, reads `parentNode` of `null` and throws. | Stop the walk at `null` and call `fn(event)`, so that every crossing from outside the element fires. | not executed | `Boundary.LiteralHandlerNeverCalls` | `Boundary.Filter` |
