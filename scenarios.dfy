/** Clients of the engine: what a caller of `set` and `unset` can rely on,
    derived from the engine's contracts alone. */
module Scenarios {
  import opened Wrappers
  import opened Dom
  import opened Boundary
  import opened Registry
  import opened Rollover

  /** Synthesis-mode `set` then `unset` with the same distinct elements and
      callbacks, none of them registered before: the registry is as it
      was, yet every wrapper `set` attached is still attached, because the
      detach names `mouseenter`/`mouseleave`. */
  method SetThenUnset(eng: Engine, elements: seq<Elem>, enter: Option<Callback>, leave: Option<Callback>)
    returns (ghost added: seq<Record>)
    requires eng.Valid() && eng.mode == Synthesized
    requires forall i, j :: 0 <= i < j < |elements| ==> elements[i] != elements[j]
    requires forall k :: 0 <= k < |eng.addedEvents| ==> eng.addedEvents[k].element !in elements
    modifies eng
    ensures eng.Valid()
    ensures eng.addedEvents == old(eng.addedEvents)
    ensures Appended(added, elements, enter, leave, |old(eng.closures)|)
    ensures forall r :: r in added ==> RecordOk(eng.closures, eng.listeners, r)
    ensures eng.listeners == old(eng.listeners) + AttachedBy(added)
  {
    ghost var recs0 := eng.addedEvents;
    eng.Set(elements, enter, leave);
    added := eng.addedEvents[|recs0|..];
    assert eng.addedEvents == recs0 + added;
    assert forall r :: r in added ==> r in eng.addedEvents;
    eng.Unset(elements, enter, leave);
    RoundTrip(recs0, added, elements);
  }

  /** The leak on one element: after `set(e, f, g)` and
      `unset(e, f, g)` on a fresh synthesis-mode engine the registry is
      empty, but a `mouseover` on `e` from outside `e` still calls `f`. */
  method LeakAfterUnset(t: Tree, e: Elem, f: Callback, g: Callback, ev: Event) returns (eng: Engine)
    requires WellFormed(t) && ev.eventType == MouseOver
    ensures fresh(eng) && eng.Valid() && eng.addedEvents == []
    ensures !Internal(t, e, ev) ==> Invocation(f, ev) in Fired(t, eng.listeners, eng.closures, e, MouseOver, ev)
  {
    eng := new Engine(false, false);
    ghost var added := SetThenUnset(eng, [e], Some(f), Some(g));
    var r := added[0];
    assert r in added && Describes(r, e, Some(f), Some(g));
    assert RecordOk(eng.closures, eng.listeners, r);
    assert AttachedBy(added) == WrapperListeners(r) by {
      assert added[..0] == [];
    }
    var l := Listener(e, MouseOver, Polyfill(r.polyfillEnter.value));
    assert l in eng.listeners;
    assert eng.closures[l.handler.id] == Closure(e, f);
  }

  /** Two `set` calls for the same element and callbacks, then one `unset`:
      the first record goes, the second stays, and the wrappers of both
      stay attached. */
  method DuplicateRegistration(e: Elem, f: Callback, g: Callback) returns (eng: Engine, first: Record, second: Record)
    ensures fresh(eng) && eng.Valid()
    ensures Describes(first, e, Some(f), Some(g)) && Describes(second, e, Some(f), Some(g))
    ensures Precedes(first, second)
    ensures eng.addedEvents == [second]
    ensures WrapperListeners(first) + WrapperListeners(second) <= eng.listeners
  {
    eng := new Engine(false, false);
    eng.Set([e], Some(f), Some(g));
    first := eng.addedEvents[0];
    assert first in eng.addedEvents;
    assert Describes(first, e, Some(f), Some(g));
    assert RecordOk(eng.closures, eng.listeners, first);
    eng.Set([e], Some(f), Some(g));
    assert |eng.addedEvents| == 2;
    assert eng.addedEvents[0] == first;
    second := eng.addedEvents[1];
    assert eng.addedEvents[1..][0] == second;
    assert first.element == e && second in eng.addedEvents;
    ghost var recs := eng.addedEvents;
    eng.Unset([e], Some(f), Some(g));
    assert RemoveEach(recs, [e]) == RemoveFirst(recs, e) by {
      assert [e][..0] == [];
    }
    assert IsFirst(recs, e, 0);
    assert recs[1..] == [second];
  }

  /** `unset` with an `enter` callback other than the one registered still
      removes the element's record (the scan matches by element only);
      only the detach calls depend on the callbacks. */
  method UnsetWithOtherCallback(e: Elem, f: Callback, g: Callback, h: Callback) returns (eng: Engine, r: Record)
    requires f != h
    ensures fresh(eng) && eng.Valid()
    ensures eng.addedEvents == []
    ensures Describes(r, e, Some(h), Some(g))
    ensures WrapperListeners(r) <= eng.listeners
  {
    eng := new Engine(false, false);
    eng.Set([e], Some(h), Some(g));
    r := eng.addedEvents[0];
    assert r in eng.addedEvents && Describes(r, e, Some(h), Some(g));
    assert Listener(e, MouseOver, Polyfill(r.polyfillEnter.value)) in eng.listeners;
    ghost var recs := eng.addedEvents;
    eng.Unset([e], Some(f), Some(g));
    assert RemoveEach(recs, [e]) == RemoveFirst(recs, e) by {
      assert [e][..0] == [];
    }
    assert IsFirst(recs, e, 0);
  }

  /** `set(e, f, undefined)` in synthesis mode: one record, with no leave
      wrapper, and no `mouseout` listener at all. */
  method PartialRegistration(e: Elem, f: Callback) returns (eng: Engine)
    ensures fresh(eng) && eng.Valid()
    ensures |eng.addedEvents| == 1
    ensures eng.addedEvents[0].leave.None? && eng.addedEvents[0].polyfillLeave.None?
    ensures eng.addedEvents[0].polyfillEnter.Some?
    ensures forall l :: l in eng.listeners ==> l.eventType == MouseOver
  {
    eng := new Engine(false, false);
    eng.Set([e], Some(f), None);
    var r := eng.addedEvents[0];
    assert Describes(r, e, Some(f), None);
    assert AttachedBy(eng.addedEvents) == WrapperListeners(r) by {
      assert eng.addedEvents[..0] == [];
    }
  }

  /** Native mode, no listener yet: after `set(e, f)` an event on
      `mouseenter` of `e` calls `f` exactly once, with that event. */
  method NativeSet(eng: Engine, t: Tree, e: Elem, f: Callback, ev: Event)
    requires WellFormed(t) && ev.eventType == MouseEnter
    requires eng.Valid() && eng.mode == Native && eng.listeners == {}
    modifies eng
    ensures eng.Valid() && eng.addedEvents == []
    ensures eng.listeners == {Listener(e, MouseEnter, Raw(f))}
    ensures Fired(t, eng.listeners, eng.closures, e, MouseEnter, ev) == {Invocation(f, ev)}
  {
    eng.Set([e], Some(f), None);
    assert eng.listeners == {Listener(e, MouseEnter, Raw(f))};
  }

  /** Native mode: after `unset(e, f)` an event on `mouseenter` of `e` no
      longer calls `f`; from the state `NativeSet` leaves, it calls
      nothing and the listener table is empty again. */
  method NativeUnset(eng: Engine, t: Tree, e: Elem, f: Callback, ev: Event)
    requires WellFormed(t) && ev.eventType == MouseEnter
    requires eng.Valid() && eng.mode == Native
    modifies eng
    ensures eng.Valid() && eng.addedEvents == []
    ensures Invocation(f, ev) !in Fired(t, eng.listeners, eng.closures, e, MouseEnter, ev)
    ensures old(eng.listeners) == {Listener(e, MouseEnter, Raw(f))} ==>
      eng.listeners == {} && Fired(t, eng.listeners, eng.closures, e, MouseEnter, ev) == {}
  {
    eng.Unset([e], Some(f), None);
    assert Listener(e, MouseEnter, Raw(f)) in NativeListeners([e], Some(f), None);
  }
}
