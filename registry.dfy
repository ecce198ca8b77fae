/** The registration registry `addedEvents`: the records `set` appends in
    synthesis mode and `unset` looks up and removes. */
module Registry {
  import opened Wrappers
  import opened Dom
  import opened Boundary

  /** A wrapper function made by `generatePolyfillEvent_`, by identity. */
  type WrapperId = nat

  /** One object pushed onto `addedEvents`: the element, the wrappers held
      in `polyfillEnter`/`polyfillLeave` at push time (`None` for
      `undefined`), and the caller's original `enter`/`leave` arguments
      (`None` for an argument that is not a function). */
  datatype Record = Record(
    element: Elem,
    polyfillEnter: Option<WrapperId>,
    polyfillLeave: Option<WrapperId>,
    enter: Option<Callback>,
    leave: Option<Callback>)

  /** `n` is the lowest index of a record for `e`: where the forward scan of
      `unset` stops. */
  ghost predicate IsFirst(recs: seq<Record>, e: Elem, n: nat)
  {
    n < |recs| && recs[n].element == e && forall j :: 0 <= j < n ==> recs[j].element != e
  }

  /** No record is registered for `e`. */
  ghost predicate Absent(recs: seq<Record>, e: Elem)
  {
    forall j :: 0 <= j < |recs| ==> recs[j].element != e
  }

  /** The registry after `unset` handled one element `e`: the first record
      for `e` is spliced out; without one, nothing changes. Callbacks play
      no part in which record goes. */
  function RemoveFirst(recs: seq<Record>, e: Elem): (r: seq<Record>)
    ensures Absent(recs, e) ==> r == recs
    ensures forall n: nat :: IsFirst(recs, e, n) ==> r == recs[..n] + recs[n + 1..]
  {
    if recs == [] then []
    else if recs[0].element == e then recs[1..]
    else
      var rest := RemoveFirst(recs[1..], e);
      assert forall n: nat :: IsFirst(recs, e, n) ==> n > 0 && IsFirst(recs[1..], e, n - 1);
      assert forall n :: 0 < n <= |recs| ==> recs[..n] == [recs[0]] + recs[1..][..n - 1];
      [recs[0]] + rest
  }

  /** The registry after `unset` handled each of `es`, in order. */
  function RemoveEach(recs: seq<Record>, es: seq<Elem>): seq<Record>
    decreases |es|
  {
    if es == [] then recs
    else RemoveFirst(RemoveEach(recs, es[..|es| - 1]), es[|es| - 1])
  }

  /** How many records are registered for `e`. */
  function Count(recs: seq<Record>, e: Elem): nat
  {
    if recs == [] then 0
    else (if recs[0].element == e then 1 else 0) + Count(recs[1..], e)
  }

  /** Exactly one record goes, and only one for `e`, when there is one;
      counts for every other element are untouched. */
  lemma {:induction false} RemoveFirstCount(recs: seq<Record>, e: Elem, x: Elem)
    ensures Count(recs, e) == 0 <==> Absent(recs, e)
    ensures Count(RemoveFirst(recs, e), x) ==
      if x == e && Count(recs, e) > 0 then Count(recs, x) - 1 else Count(recs, x)
    ensures |RemoveFirst(recs, e)| == if Count(recs, e) > 0 then |recs| - 1 else |recs|
  {
    if recs != [] {
      RemoveFirstCount(recs[1..], e, x);
      if recs[0].element != e {
        assert RemoveFirst(recs, e) == [recs[0]] + RemoveFirst(recs[1..], e);
        assert ([recs[0]] + RemoveFirst(recs[1..], e))[1..] == RemoveFirst(recs[1..], e);
      }
      assert Absent(recs, e) ==> Absent(recs[1..], e);
      assert Absent(recs[1..], e) && recs[0].element != e ==> Absent(recs, e) by {
        if Absent(recs[1..], e) && recs[0].element != e {
          forall j | 0 <= j < |recs| ensures recs[j].element != e {
            if j > 0 { assert recs[j] == recs[1..][j - 1]; }
          }
        }
      }
    }
  }

  /** `a` minus `b`, never below zero. */
  function Monus(a: nat, b: nat): nat
  {
    if a >= b then a - b else 0
  }

  /** Unsetting a list of elements removes, for every element `x`, one record
      per occurrence of `x` in the list, as long as records for `x` remain. */
  lemma {:induction false} RemoveEachCount(recs: seq<Record>, es: seq<Elem>, x: Elem)
    ensures Count(RemoveEach(recs, es), x) == Monus(Count(recs, x), multiset(es)[x])
    decreases |es|
  {
    if es != [] {
      var init, last := es[..|es| - 1], es[|es| - 1];
      assert es == init + [last];
      RemoveEachCount(recs, init, x);
      RemoveFirstCount(RemoveEach(recs, init), last, x);
    }
  }

  /** Unsetting the first `k` of `es` strips the first `k` added records. */
  lemma {:induction false} RoundTripPrefix(recs: seq<Record>, added: seq<Record>, es: seq<Elem>, k: nat)
    requires k <= |es| == |added|
    requires forall i :: 0 <= i < |es| ==> added[i].element == es[i]
    requires forall i, j :: 0 <= i < j < |es| ==> es[i] != es[j]
    requires forall j :: 0 <= j < |recs| ==> recs[j].element !in es
    ensures RemoveEach(recs + added, es[..k]) == recs + added[k..]
  {
    if k > 0 {
      RoundTripPrefix(recs, added, es, k - 1);
      var cur := recs + added[k - 1..];
      assert es[..k][..k - 1] == es[..k - 1];
      assert es[k - 1] in es;
      assert IsFirst(cur, es[k - 1], |recs|) by {
        forall j | 0 <= j < |recs| ensures cur[j].element != es[k - 1] {
          assert cur[j] == recs[j];
        }
      }
      assert cur[..|recs|] + cur[|recs| + 1..] == recs + added[k..];
    }
  }

  /** `set` followed by `unset` on the same distinct elements gives the
      registry back as it was, when no element had a record before. */
  lemma RoundTrip(recs: seq<Record>, added: seq<Record>, es: seq<Elem>)
    requires |added| == |es|
    requires forall i :: 0 <= i < |es| ==> added[i].element == es[i]
    requires forall i, j :: 0 <= i < j < |es| ==> es[i] != es[j]
    requires forall j :: 0 <= j < |recs| ==> recs[j].element !in es
    ensures RemoveEach(recs + added, es) == recs
  {
    RoundTripPrefix(recs, added, es, |es|);
    assert es[..|es|] == es;
  }
}
