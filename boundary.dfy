/** The boundary filter: the handler returned by `generatePolyfillEvent_`,
    which turns bubbling `mouseover`/`mouseout` firings into enter/leave
    notifications by walking `event.relatedTarget` up its `parentNode`
    chain. */
module Boundary {
  import opened Wrappers
  import opened Dom

  /** The four DOM event types the engine uses. */
  datatype EventType = MouseEnter | MouseLeave | MouseOver | MouseOut

  /** A caller-supplied function, by identity (`===`). */
  datatype Callback = Fn(id: nat)

  /** A mouse event as the handler sees it: its type, and the element the
      pointer comes from or goes to, which may be `null`. */
  datatype Event = Event(eventType: EventType, relatedTarget: Option<Elem>)

  /** `fn(event)`: one call of a callback with an event object. */
  datatype Invocation = Invocation(fn: Callback, event: Event)

  /** The crossing is internal: the element the pointer comes from or goes
      to is `element` itself or lies inside it. */
  ghost predicate Internal(t: Tree, element: Elem, ev: Event)
    requires WellFormed(t)
  {
    element in Chain(t, ev.relatedTarget)
  }

  /** The wrapped handler bound to `element` and `fn`, invoked with `ev`.
      The walk follows `parentNode` from `ev.relatedTarget` and stops at
      `element` (the callback is suppressed) or at `null` (the callback is
      called with the very same event). The source's loop has no `null`
      test; this is the walk it evidently means (see `LiteralHandler`).
      `visited` is the sequence of nodes the walk compared with `element`. */
  method Filter(t: Tree, element: Elem, fn: Callback, ev: Event)
    returns (call: Option<Invocation>, ghost visited: seq<Elem>)
    requires WellFormed(t)
    ensures call.None? <==> Internal(t, element, ev)
    ensures call.Some? ==> call.value == Invocation(fn, ev)
    ensures visited <= Chain(t, ev.relatedTarget)
    ensures call.None? ==> visited != [] && visited[|visited| - 1] == element
    ensures call.None? ==> element !in visited[..|visited| - 1]
    ensures call.Some? ==> visited == Chain(t, ev.relatedTarget)
  {
    var parent := ev.relatedTarget;
    visited := [];
    while parent.Some? && parent.value != element
      invariant Chain(t, ev.relatedTarget) == visited + Chain(t, parent)
      invariant element !in visited
      decreases Rank(t, parent)
    {
      visited := visited + [parent.value];
      parent := ParentNode(t, parent.value);
    }
    if parent.Some? {
      visited := visited + [parent.value];
      call := None;
    } else {
      call := Some(Invocation(fn, ev));
    }
  }

  /** Where the loop as written ends: it leaves with `parent` holding the
      node that stopped it, or throws a TypeError reading `parentNode` of
      `null`. */
  datatype LoopEnd = Exited(parent: Option<Elem>) | Threw

  /** The loop of the handler exactly as written: `while (parent !==
      element) parent = parent.parentNode;`, with no test for `null`. */
  function LiteralLoop(t: Tree, element: Elem, parent: Option<Elem>): LoopEnd
    requires WellFormed(t)
    decreases Rank(t, parent)
  {
    if parent == Some(element) then Exited(parent)
    else match parent
      case None => Threw
      case Some(p) => LiteralLoop(t, element, ParentNode(t, p))
  }

  /** What one run of the handler as written can do: return early, call
      `fn(event)`, or throw. */
  datatype Outcome = Returned | Called(call: Invocation) | NullDereference

  /** The handler exactly as written: the loop, then `if (parent ===
      element) return; fn(event);`. */
  function LiteralHandler(t: Tree, element: Elem, fn: Callback, ev: Event): Outcome
    requires WellFormed(t)
  {
    match LiteralLoop(t, element, ev.relatedTarget)
    case Threw => NullDereference
    case Exited(parent) => if parent == Some(element) then Returned else Called(Invocation(fn, ev))
  }

  /** The loop as written leaves only with `parent === element`, and it
      leaves exactly when `element` is on the chain from `parent`. */
  lemma {:induction false} LiteralLoopExit(t: Tree, element: Elem, parent: Option<Elem>)
    requires WellFormed(t)
    ensures LiteralLoop(t, element, parent).Exited? ==> LiteralLoop(t, element, parent).parent == Some(element)
    ensures LiteralLoop(t, element, parent).Exited? <==> element in Chain(t, parent)
    decreases Rank(t, parent)
  {
    if parent != Some(element) && parent.Some? {
      LiteralLoopExit(t, element, ParentNode(t, parent.value));
    }
  }

  /** As written, the handler never calls `fn`: an internal crossing returns
      early and every other crossing, including a `null` related target,
      dereferences `null`. */
  lemma LiteralHandlerNeverCalls(t: Tree, element: Elem, fn: Callback, ev: Event)
    requires WellFormed(t)
    ensures !LiteralHandler(t, element, fn, ev).Called?
    ensures LiteralHandler(t, element, fn, ev) == Returned <==> Internal(t, element, ev)
    ensures LiteralHandler(t, element, fn, ev) == NullDereference <==> !Internal(t, element, ev)
  {
    LiteralLoopExit(t, element, ev.relatedTarget);
  }
}
