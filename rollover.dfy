/** The engine behind `set` and `unset`: the module-level registry
    `addedEvents`, the wrappers made by `generatePolyfillEvent_`, and the
    host's listener table as changed by `addEvent_`/`removeEvent_`. */
module Rollover {
  import opened Wrappers
  import opened Dom
  import opened Boundary
  import opened Registry

  /** A function registered with the host: a caller's callback itself, or a
      wrapper made by `generatePolyfillEvent_`. */
  datatype Handler = Raw(cb: Callback) | Polyfill(id: WrapperId)

  /** One entry of the host's listener table. */
  datatype Listener = Listener(element: Elem, eventType: EventType, handler: Handler)

  /** What a wrapper closes over: the element it was made for and `fn`. */
  datatype Closure = Closure(element: Elem, fn: Callback)

  /** How the engine works, fixed when the module loads: jQuery present,
      native `mouseenter`/`mouseleave` support, or neither. */
  datatype Mode = Delegated | Native | Synthesized

  /** The source checks `!!$` first, then `hasEvent`. */
  function ModeOf(jquery: bool, hasEvent: bool): Mode
  {
    if jquery then Delegated else if hasEvent then Native else Synthesized
  }

  /** The listeners native-mode `set` attaches for `elements`: the raw
      callbacks, on `mouseenter`/`mouseleave`, for the slots that are
      functions. */
  ghost function NativeListeners(elements: seq<Elem>, enter: Option<Callback>, leave: Option<Callback>): set<Listener>
  {
    (set e | e in elements && enter.Some? :: Listener(e, MouseEnter, Raw(enter.value)))
    + (set e | e in elements && leave.Some? :: Listener(e, MouseLeave, Raw(leave.value)))
  }

  /** The listeners one record's wrappers were attached as. */
  ghost function WrapperListeners(r: Record): set<Listener>
  {
    (if r.polyfillEnter.Some? then {Listener(r.element, MouseOver, Polyfill(r.polyfillEnter.value))} else {})
    + (if r.polyfillLeave.Some? then {Listener(r.element, MouseOut, Polyfill(r.polyfillLeave.value))} else {})
  }

  /** The listeners the wrappers of all of `recs` were attached as. */
  ghost function AttachedBy(recs: seq<Record>): set<Listener>
    decreases |recs|
  {
    if recs == [] then {} else AttachedBy(recs[..|recs| - 1]) + WrapperListeners(recs[|recs| - 1])
  }

  /** `r` is the record pushed for element `e` by `set(_, enter, leave)`:
      the element, the original arguments, and a wrapper exactly in the
      slots whose argument is a function. */
  ghost predicate Describes(r: Record, e: Elem, enter: Option<Callback>, leave: Option<Callback>)
  {
    && r.element == e && r.enter == enter && r.leave == leave
    && (r.polyfillEnter.Some? <==> enter.Some?)
    && (r.polyfillLeave.Some? <==> leave.Some?)
  }

  /** The wrappers all of `recs` hold. */
  ghost function WrappersOf(recs: seq<Record>): set<WrapperId>
    decreases |recs|
  {
    if recs == [] then {} else WrappersOf(recs[..|recs| - 1]) + Ids(recs[|recs| - 1])
  }

  /** The wrappers made from the `lo`-th up to before the `hi`-th. */
  ghost function Span(lo: nat, hi: nat): set<WrapperId>
    decreases hi
  {
    if hi <= lo then {} else Span(lo, hi - 1) + {hi - 1}
  }

  /** Consecutive spans of wrappers join up. */
  lemma {:induction false} SpanSplit(lo: nat, mid: nat, hi: nat)
    requires lo <= mid <= hi
    ensures Span(lo, hi) == Span(lo, mid) + Span(mid, hi)
    decreases hi
  {
    if mid < hi {
      SpanSplit(lo, mid, hi - 1);
    }
  }

  /** The wrappers a record holds. */
  ghost function Ids(r: Record): set<WrapperId>
  {
    (if r.polyfillEnter.Some? then {r.polyfillEnter.value} else {})
    + (if r.polyfillLeave.Some? then {r.polyfillLeave.value} else {})
  }

  /** The record's wrappers were all made after the first `lo` wrappers,
      the enter wrapper before the leave wrapper. */
  ghost predicate MadeFrom(r: Record, lo: nat)
  {
    && (forall a :: a in Ids(r) ==> lo <= a)
    && (r.polyfillEnter.Some? && r.polyfillLeave.Some? ==> r.polyfillEnter.value < r.polyfillLeave.value)
  }

  /** Every wrapper of `r1` was made before every wrapper of `r2`. */
  ghost predicate Precedes(r1: Record, r2: Record)
  {
    forall a, b :: a in Ids(r1) && b in Ids(r2) ==> a < b
  }

  /** `added` is what synthesis-mode `set(_, enter, leave)` pushes for
      `elements`: one record per element, in order, each describing its
      element and holding wrappers made after the first `lo`, the earlier
      element's wrappers made first. */
  ghost predicate Appended(added: seq<Record>, elements: seq<Elem>, enter: Option<Callback>, leave: Option<Callback>, lo: nat)
  {
    && |added| == |elements|
    && (forall i :: 0 <= i < |added| ==> Describes(added[i], elements[i], enter, leave) && MadeFrom(added[i], lo))
    && (forall i, j :: 0 <= i < j < |added| ==> Precedes(added[i], added[j]))
  }

  /** The calls the host makes when an event of type `ty` reaches `target`:
      every raw callback listening there is called with the event, and
      every wrapper listening there calls its callback unless the crossing
      is internal to the wrapper's element. */
  ghost function Fired(t: Tree, listeners: set<Listener>, closures: seq<Closure>, target: Elem, ty: EventType, ev: Event): set<Invocation>
    requires WellFormed(t) && ev.eventType == ty
  {
    (set l | l in listeners && l.element == target && l.eventType == ty && l.handler.Raw? ::
       Invocation(l.handler.cb, ev))
    + (set l | l in listeners && l.element == target && l.eventType == ty && l.handler.Polyfill?
               && l.handler.id < |closures| && !Internal(t, closures[l.handler.id].element, ev) ::
       Invocation(closures[l.handler.id].fn, ev))
  }

  /** `w` is a wrapper exactly when `fn` is a function, and then it wraps
      `fn` for `element`. */
  ghost predicate WrapperOk(closures: seq<Closure>, w: Option<WrapperId>, element: Elem, fn: Option<Callback>)
  {
    && (w.Some? <==> fn.Some?)
    && (w.Some? ==> w.value < |closures| && closures[w.value] == Closure(element, fn.value))
  }

  /** A record's wrappers wrap its own element and callbacks and are
      attached. */
  ghost predicate RecordOk(closures: seq<Closure>, listeners: set<Listener>, r: Record)
  {
    && WrapperOk(closures, r.polyfillEnter, r.element, r.enter)
    && WrapperOk(closures, r.polyfillLeave, r.element, r.leave)
    && WrapperListeners(r) <= listeners
  }

  /** A wrapper is attached only on `mouseover`/`mouseout` of the element
      it was made for. */
  ghost predicate ListenerOk(closures: seq<Closure>, l: Listener)
  {
    l.handler.Polyfill? ==>
      && (l.eventType == MouseOver || l.eventType == MouseOut)
      && l.handler.id < |closures|
      && closures[l.handler.id].element == l.element
  }

  /** The engine invariant: records exist only in synthesis mode, and every
      record and every listener is as above. */
  ghost predicate Coherent(mode: Mode, recs: seq<Record>, closures: seq<Closure>, listeners: set<Listener>)
  {
    && (mode != Synthesized ==> recs == [] && closures == [])
    && (forall r :: r in recs ==> RecordOk(closures, listeners, r))
    && (forall l :: l in listeners ==> ListenerOk(closures, l))
  }

  /** Dropping records keeps the invariant. */
  lemma CoherentShrink(mode: Mode, recs: seq<Record>, recs': seq<Record>, closures: seq<Closure>, listeners: set<Listener>)
    requires Coherent(mode, recs, closures, listeners)
    requires forall x :: x in recs' ==> x in recs
    requires |recs'| <= |recs|
    ensures Coherent(mode, recs', closures, listeners)
  {
  }

  /** No wrapper is ever attached as a `mouseenter` or `mouseleave`
      listener. */
  lemma NoWrapperOnEnterLeave(mode: Mode, recs: seq<Record>, closures: seq<Closure>, listeners: set<Listener>, e: Elem, w: WrapperId)
    requires Coherent(mode, recs, closures, listeners)
    ensures Listener(e, MouseEnter, Polyfill(w)) !in listeners
    ensures Listener(e, MouseLeave, Polyfill(w)) !in listeners
  {
  }

  /** Making wrappers and attaching well-placed listeners keeps the
      invariant of a synthesis-mode engine. */
  lemma CoherentExtend(recs: seq<Record>, closures: seq<Closure>, listeners: set<Listener>,
                       closures': seq<Closure>, listeners': set<Listener>)
    requires Coherent(Synthesized, recs, closures, listeners)
    requires closures <= closures' && listeners <= listeners'
    requires forall l :: l in listeners' - listeners ==> ListenerOk(closures', l)
    ensures Coherent(Synthesized, recs, closures', listeners')
  {
    forall r | r in recs ensures RecordOk(closures', listeners', r) {
      assert RecordOk(closures, listeners, r);
    }
    forall l | l in listeners ensures ListenerOk(closures', l) {
      assert ListenerOk(closures, l);
    }
  }

  /** Pushing a record whose wrappers are in place keeps the invariant. */
  lemma CoherentPush(recs: seq<Record>, closures: seq<Closure>, listeners: set<Listener>, r: Record)
    requires Coherent(Synthesized, recs, closures, listeners)
    requires RecordOk(closures, listeners, r)
    ensures Coherent(Synthesized, recs + [r], closures, listeners)
  {
  }

  /** Every registered wrapper has already been made. */
  lemma IdsMade(mode: Mode, recs: seq<Record>, closures: seq<Closure>, listeners: set<Listener>)
    requires Coherent(mode, recs, closures, listeners)
    ensures forall x :: x in recs ==> forall a :: a in Ids(x) ==> a < |closures|
  {
    forall x | x in recs ensures forall a :: a in Ids(x) ==> a < |closures| {
      assert RecordOk(closures, listeners, x);
    }
  }

  /** One more `Appended` record for one more element. */
  lemma AppendedSnoc(added: seq<Record>, elements: seq<Elem>, enter: Option<Callback>, leave: Option<Callback>,
                     lo: nat, mid: nat, r: Record, e: Elem)
    requires Appended(added, elements, enter, leave, lo)
    requires forall x :: x in added ==> forall a :: a in Ids(x) ==> a < mid
    requires Describes(r, e, enter, leave) && MadeFrom(r, mid) && lo <= mid
    ensures Appended(added + [r], elements + [e], enter, leave, lo)
  {
    var added', elements' := added + [r], elements + [e];
    forall i, j | 0 <= i < j < |added'| ensures Precedes(added'[i], added'[j]) {
      if j == |added| {
        assert added'[i] in added;
      }
    }
  }

  /** What synthesis-mode `set` leaves behind, from state `recs0`,
      `closures0`, `listeners0` to `recs`, `closures`, `listeners`: the old
      records untouched and the new ones `Appended` after them, the old
      wrappers untouched, the wrappers made exactly those the new records
      hold, and exactly the new records' wrappers attached. */
  ghost predicate SynthesizedEffect(recs0: seq<Record>, closures0: seq<Closure>, listeners0: set<Listener>,
                                    recs: seq<Record>, closures: seq<Closure>, listeners: set<Listener>,
                                    elements: seq<Elem>, enter: Option<Callback>, leave: Option<Callback>)
  {
    && |recs0| <= |recs| && recs[..|recs0|] == recs0
    && Appended(recs[|recs0|..], elements, enter, leave, |closures0|)
    && closures0 <= closures
    && WrappersOf(recs[|recs0|..]) == Span(|closures0|, |closures|)
    && listeners == listeners0 + AttachedBy(recs[|recs0|..])
  }

  /** One iteration of the synthesis loop of `set` keeps the invariant and
      extends the effect by one element. */
  lemma SynthesizedStep(recs0: seq<Record>, closures0: seq<Closure>, listeners0: set<Listener>,
                        recs: seq<Record>, closures: seq<Closure>, listeners: set<Listener>,
                        elements: seq<Elem>, enter: Option<Callback>, leave: Option<Callback>,
                        closures': seq<Closure>, listeners': set<Listener>, r: Record, e: Elem)
    requires SynthesizedEffect(recs0, closures0, listeners0, recs, closures, listeners, elements, enter, leave)
    requires Coherent(Synthesized, recs, closures', listeners') && closures <= closures'
    requires forall x :: x in recs ==> forall a :: a in Ids(x) ==> a < |closures|
    requires Describes(r, e, enter, leave) && MadeFrom(r, |closures|) && RecordOk(closures', listeners', r)
    requires Ids(r) == Span(|closures|, |closures'|)
    requires listeners' == listeners + WrapperListeners(r)
    ensures Coherent(Synthesized, recs + [r], closures', listeners')
    ensures SynthesizedEffect(recs0, closures0, listeners0, recs + [r], closures', listeners', elements + [e], enter, leave)
  {
    CoherentPush(recs, closures', listeners', r);
    var added := recs[|recs0|..];
    assert (recs + [r])[|recs0|..] == added + [r];
    assert (added + [r])[..|added|] == added;
    assert forall x :: x in added ==> x in recs;
    SpanSplit(|closures0|, |closures|, |closures'|);
    AppendedSnoc(added, elements, enter, leave, |closures0|, |closures|, r, e);
  }

  /** Native `set`/`unset` work element by element. */
  lemma NativeListenersSnoc(es: seq<Elem>, e: Elem, enter: Option<Callback>, leave: Option<Callback>)
    ensures NativeListeners(es + [e], enter, leave) ==
      NativeListeners(es, enter, leave)
      + (if enter.Some? then {Listener(e, MouseEnter, Raw(enter.value))} else {})
      + (if leave.Some? then {Listener(e, MouseLeave, Raw(leave.value))} else {})
  {
  }

  class Engine {
    /** Chosen once, from the capability probe and jQuery's presence. */
    const mode: Mode
    /** The registry `addedEvents`. */
    var addedEvents: seq<Record>
    /** Every wrapper made so far; a wrapper's identity is its index. */
    var closures: seq<Closure>
    /** The host's listener table, as far as this engine changes it. */
    ghost var listeners: set<Listener>

    /** The engine's invariant, on its current state. */
    ghost predicate Valid()
      reads this
    {
      Coherent(mode, addedEvents, closures, listeners)
    }

    constructor (jquery: bool, hasEvent: bool)
      ensures Valid()
      ensures mode == ModeOf(jquery, hasEvent)
      ensures addedEvents == [] && closures == [] && listeners == {}
    {
      mode := ModeOf(jquery, hasEvent);
      addedEvents := [];
      closures := [];
      listeners := {};
    }

    /** `addEvent_`: the listener is in the table afterwards. */
    ghost method AddEvent(element: Elem, eventType: EventType, handler: Handler)
      modifies this`listeners
      ensures listeners == old(listeners) + {Listener(element, eventType, handler)}
    {
      listeners := listeners + {Listener(element, eventType, handler)};
    }

    /** `removeEvent_`: a listener with exactly this element, type and
        function is no longer in the table; nothing else changes. */
    ghost method RemoveEvent(element: Elem, eventType: EventType, handler: Handler)
      modifies this`listeners
      ensures listeners == old(listeners) - {Listener(element, eventType, handler)}
    {
      listeners := listeners - {Listener(element, eventType, handler)};
    }

    /** `generatePolyfillEvent_(element, fn)`: a new wrapper, distinct from
        every earlier one, closing over `element` and `fn`. */
    method Generate(element: Elem, fn: Callback) returns (w: WrapperId)
      modifies this`closures
      ensures closures == old(closures) + [Closure(element, fn)]
      ensures w == |old(closures)|
    {
      w := |closures|;
      closures := closures + [Closure(element, fn)];
    }

    /** `set(selector, enter, leave)`, with the selector already resolved to
        `elements`. */
    method Set(elements: seq<Elem>, enter: Option<Callback>, leave: Option<Callback>)
      requires Valid()
      modifies this
      ensures Valid()
      ensures mode == Delegated ==>
        addedEvents == old(addedEvents) && closures == old(closures) && listeners == old(listeners)
      ensures mode == Native ==>
        && addedEvents == old(addedEvents) && closures == old(closures)
        && listeners == old(listeners) + NativeListeners(elements, enter, leave)
      ensures mode == Synthesized ==>
        SynthesizedEffect(old(addedEvents), old(closures), old(listeners), addedEvents, closures, listeners, elements, enter, leave)
    {
      if mode == Delegated {
        // jQuery's `.on('mouseenter', enter).on('mouseleave', leave)`
        return;
      } else if mode == Native {
        SetNative(elements, enter, leave);
      } else {
        SetSynthesized(elements, enter, leave);
      }
    }

    /** The native branch of `set`: the raw callbacks are attached to
        `mouseenter`/`mouseleave`, slot by slot, when they are functions. */
    method SetNative(elements: seq<Elem>, enter: Option<Callback>, leave: Option<Callback>)
      requires Valid()
      modifies this`listeners
      ensures Valid()
      ensures listeners == old(listeners) + NativeListeners(elements, enter, leave)
    {
      for i := 0 to |elements|
        invariant Valid()
        invariant listeners == old(listeners) + NativeListeners(elements[..i], enter, leave)
      {
        NativeListenersSnoc(elements[..i], elements[i], enter, leave);
        assert elements[..i + 1] == elements[..i] + [elements[i]];
        if enter.Some? {
          AddEvent(elements[i], MouseEnter, Raw(enter.value));
        }
        if leave.Some? {
          AddEvent(elements[i], MouseLeave, Raw(leave.value));
        }
      }
      assert elements[..|elements|] == elements;
    }

    /** The synthesis branch of `set`. `polyfillEnter`/`polyfillLeave` are
        declared once per call and carried across iterations; a slot whose
        argument is not a function is never assigned during the call, so its
        record holds `undefined`. */
    method SetSynthesized(elements: seq<Elem>, enter: Option<Callback>, leave: Option<Callback>)
      requires Valid() && mode == Synthesized
      modifies this
      ensures Valid()
      ensures SynthesizedEffect(old(addedEvents), old(closures), old(listeners), addedEvents, closures, listeners, elements, enter, leave)
    {
      var polyfillEnter: Option<WrapperId> := None;
      var polyfillLeave: Option<WrapperId> := None;
      for i := 0 to |elements|
        invariant Valid()
        invariant SynthesizedEffect(old(addedEvents), old(closures), old(listeners), addedEvents, closures, listeners, elements[..i], enter, leave)
        invariant enter.None? ==> polyfillEnter.None?
        invariant leave.None? ==> polyfillLeave.None?
      {
        ghost var recs, closures0, listeners0 := addedEvents, closures, listeners;
        IdsMade(mode, recs, closures, listeners);
        polyfillEnter, polyfillLeave := Wrap(elements[i], enter, leave, polyfillEnter, polyfillLeave);
        var r := Record(elements[i], polyfillEnter, polyfillLeave, enter, leave);
        SynthesizedStep(old(addedEvents), old(closures), old(listeners), recs, closures0, listeners0,
                        elements[..i], enter, leave, closures, listeners, r, elements[i]);
        addedEvents := addedEvents + [r];
        assert elements[..i + 1] == elements[..i] + [elements[i]];
      }
      assert elements[..|elements|] == elements;
    }

    /** One iteration of the synthesis loop of `set`, up to the push: a new
        wrapper attached to `mouseover` when `enter` is a function and one
        attached to `mouseout` when `leave` is; a slot whose argument is not
        a function keeps its previous value. */
    method Wrap(element: Elem, enter: Option<Callback>, leave: Option<Callback>,
                polyfillEnter: Option<WrapperId>, polyfillLeave: Option<WrapperId>)
      returns (polyfillEnter': Option<WrapperId>, polyfillLeave': Option<WrapperId>)
      requires Valid() && mode == Synthesized
      modifies this`closures, this`listeners
      ensures Valid() && old(closures) <= closures
      ensures enter.None? ==> polyfillEnter' == polyfillEnter
      ensures leave.None? ==> polyfillLeave' == polyfillLeave
      ensures var r := Record(element, polyfillEnter', polyfillLeave', enter, leave);
        && (enter.Some? ==> WrapperOk(closures, polyfillEnter', element, enter))
        && (leave.Some? ==> WrapperOk(closures, polyfillLeave', element, leave))
        && (enter.Some? ==> |old(closures)| <= polyfillEnter'.value)
        && (leave.Some? ==> |old(closures)| <= polyfillLeave'.value)
        && (enter.Some? && leave.Some? ==> polyfillEnter'.value < polyfillLeave'.value)
        && (if enter.Some? then {polyfillEnter'.value} else {})
             + (if leave.Some? then {polyfillLeave'.value} else {}) == Span(|old(closures)|, |closures|)
        && listeners == old(listeners)
             + (if enter.Some? then {Listener(element, MouseOver, Polyfill(polyfillEnter'.value))} else {})
             + (if leave.Some? then {Listener(element, MouseOut, Polyfill(polyfillLeave'.value))} else {})
    {
      polyfillEnter', polyfillLeave' := polyfillEnter, polyfillLeave;
      ghost var closures0, listeners0 := closures, listeners;
      if enter.Some? {
        var w := Generate(element, enter.value);
        SpanSplit(|closures0|, w, |closures|);
        polyfillEnter' := Some(w);
        AddEvent(element, MouseOver, Polyfill(w));
      }
      if leave.Some? {
        ghost var c := |closures|;
        var w := Generate(element, leave.value);
        SpanSplit(|closures0|, c, |closures|);
        polyfillLeave' := Some(w);
        AddEvent(element, MouseOut, Polyfill(w));
      }
      CoherentExtend(addedEvents, closures0, listeners0, closures, listeners);
    }

    /** `unset(selector, enter, leave)`, with the selector already resolved
        to `elements`. */
    method Unset(elements: seq<Elem>, enter: Option<Callback>, leave: Option<Callback>)
      requires Valid()
      modifies this
      ensures Valid()
      ensures closures == old(closures)
      ensures mode == Delegated ==> addedEvents == old(addedEvents) && listeners == old(listeners)
      ensures mode == Native ==>
        addedEvents == old(addedEvents) && listeners == old(listeners) - NativeListeners(elements, enter, leave)
      ensures mode == Synthesized ==>
        addedEvents == RemoveEach(old(addedEvents), elements) && listeners == old(listeners)
    {
      if mode == Delegated {
        // jQuery's `.off('mouseenter', enter).off('mouseleave', leave)`
        return;
      } else if mode == Native {
        UnsetNative(elements, enter, leave);
      } else {
        UnsetSynthesized(elements, enter, leave);
      }
    }

    /** The native branch of `unset`: the raw callbacks are detached from
        `mouseenter`/`mouseleave`, slot by slot, when they are functions. */
    method UnsetNative(elements: seq<Elem>, enter: Option<Callback>, leave: Option<Callback>)
      requires Valid()
      modifies this`listeners
      ensures Valid()
      ensures listeners == old(listeners) - NativeListeners(elements, enter, leave)
    {
      for i := 0 to |elements|
        invariant Valid()
        invariant listeners == old(listeners) - NativeListeners(elements[..i], enter, leave)
      {
        NativeListenersSnoc(elements[..i], elements[i], enter, leave);
        assert elements[..i + 1] == elements[..i] + [elements[i]];
        if enter.Some? {
          RemoveEvent(elements[i], MouseEnter, Raw(enter.value));
        }
        if leave.Some? {
          RemoveEvent(elements[i], MouseLeave, Raw(leave.value));
        }
      }
      assert elements[..|elements|] == elements;
    }

    /** The synthesis branch of `unset`: per element, a forward scan for the
        first record of that element, which is removed whatever its
        callbacks; the callbacks only decide which wrappers are detached. */
    method UnsetSynthesized(elements: seq<Elem>, enter: Option<Callback>, leave: Option<Callback>)
      requires Valid()
      modifies this`addedEvents, this`listeners
      ensures Valid()
      ensures addedEvents == RemoveEach(old(addedEvents), elements) && listeners == old(listeners)
    {
      for i := 0 to |elements|
        invariant Valid()
        invariant listeners == old(listeners)
        invariant addedEvents == RemoveEach(old(addedEvents), elements[..i])
      {
        assert elements[..i + 1][..i] == elements[..i];
        ghost var before := addedEvents;
        var nlen := |addedEvents|;
        for n := 0 to nlen
          invariant addedEvents == before && listeners == old(listeners)
          invariant forall j :: 0 <= j < n ==> before[j].element != elements[i]
        {
          if addedEvents[n].element != elements[i] {
            continue;
          }
          var r := addedEvents[n];
          // The wrappers were attached to `mouseover`/`mouseout`; these
          // detach calls name `mouseenter`/`mouseleave`, as written.
          if r.enter == enter && r.polyfillEnter.Some? {
            NoWrapperOnEnterLeave(mode, addedEvents, closures, listeners, elements[i], r.polyfillEnter.value);
            RemoveEvent(elements[i], MouseEnter, Polyfill(r.polyfillEnter.value));
            assert listeners == old(listeners);
          }
          if r.leave == leave && r.polyfillLeave.Some? {
            NoWrapperOnEnterLeave(mode, addedEvents, closures, listeners, elements[i], r.polyfillLeave.value);
            RemoveEvent(elements[i], MouseLeave, Polyfill(r.polyfillLeave.value));
            assert listeners == old(listeners);
          }
          assert IsFirst(before, elements[i], n);
          // the intended `addedEvents.splice(n, 1)`
          addedEvents := addedEvents[..n] + addedEvents[n + 1..];
          assert forall x :: x in addedEvents ==> x in before;
          CoherentShrink(mode, before, addedEvents, closures, listeners);
          break;
        }
      }
      assert elements[..|elements|] == elements;
    }
  }
}
