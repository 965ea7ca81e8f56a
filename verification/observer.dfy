/**
  The part of an `IntersectionObserver` callback shared by the reveal animation
  and the lazy image loader: for every entry that is intersecting, update the
  entry's target element; leave the others alone.
 */
module Observer {

  /** Elements are told apart by an identity; what an element holds is up to the caller. */
  type ElementId = nat

  /** An `IntersectionObserverEntry`, reduced to its target and whether it is intersecting. */
  datatype Entry = Entry(target: ElementId, isIntersecting: bool)

  /** Some intersecting entry of the batch targets `id`. */
  ghost predicate Intersected(entries: seq<Entry>, id: ElementId) {
    exists k :: 0 <= k < |entries| && entries[k].target == id && entries[k].isIntersecting
  }

  /** Applying the update a second time changes nothing. */
  ghost predicate Idempotent<T(!new)>(update: T -> T) {
    forall x :: update(update(x)) == update(x)
  }

  /** `entries.forEach(entry => { if (entry.isIntersecting) update(entry.target) })`. */
  function Dispatch<T>(page: map<ElementId, T>, entries: seq<Entry>, update: T -> T): (r: map<ElementId, T>)
    ensures r.Keys == page.Keys
    ensures forall id :: id in page && !Intersected(entries, id) ==> r[id] == page[id]
    decreases |entries|
  {
    if |entries| == 0 then page
    else
      var e := entries[0];
      var next := if e.isIntersecting && e.target in page then page[e.target := update(page[e.target])] else page;
      assert forall id :: Intersected(entries[1..], id) ==> Intersected(entries, id) by {
        forall id | Intersected(entries[1..], id) ensures Intersected(entries, id) {
          var k :| 0 <= k < |entries[1..]| && entries[1..][k].target == id && entries[1..][k].isIntersecting;
          assert entries[k + 1] == entries[1..][k];
        }
      }
      Dispatch(next, entries[1..], update)
  }

  /**
    With an idempotent update, a batch updates each intersected element exactly
    once, however many of the batch's entries target it, and leaves every other
    element as it was.
   */
  lemma {:induction false} DispatchUpdatesIntersected<T(!new)>(page: map<ElementId, T>, entries: seq<Entry>, update: T -> T)
    requires Idempotent(update)
    ensures forall id :: id in page ==>
      Dispatch(page, entries, update)[id] == (if Intersected(entries, id) then update(page[id]) else page[id])
    decreases |entries|
  {
    if |entries| > 0 {
      var e := entries[0];
      var next := if e.isIntersecting && e.target in page then page[e.target := update(page[e.target])] else page;
      DispatchUpdatesIntersected(next, entries[1..], update);
      forall id | id in page
        ensures Dispatch(page, entries, update)[id] == (if Intersected(entries, id) then update(page[id]) else page[id])
      {
        var inRest := Intersected(entries[1..], id);
        var hitNow := e.isIntersecting && e.target == id;
        if inRest {
          var k :| 0 <= k < |entries[1..]| && entries[1..][k].target == id && entries[1..][k].isIntersecting;
          assert entries[k + 1] == entries[1..][k];
        }
        if hitNow {
          assert entries[0].target == id && entries[0].isIntersecting;
        }
        if Intersected(entries, id) {
          var k :| 0 <= k < |entries| && entries[k].target == id && entries[k].isIntersecting;
          if k > 0 {
            assert entries[1..][k - 1] == entries[k];
          }
        }
      }
    }
  }

  /** Several observer batches, delivered in order. */
  function DispatchAll<T>(page: map<ElementId, T>, batches: seq<seq<Entry>>, update: T -> T): (r: map<ElementId, T>)
    ensures r.Keys == page.Keys
    decreases |batches|
  {
    if |batches| == 0 then page else DispatchAll(Dispatch(page, batches[0], update), batches[1..], update)
  }

  /** Delivering the same batch twice has the effect of delivering it once. */
  lemma DispatchTwice<T(!new)>(page: map<ElementId, T>, entries: seq<Entry>, update: T -> T)
    requires Idempotent(update)
    ensures Dispatch(Dispatch(page, entries, update), entries, update) == Dispatch(page, entries, update)
  {
    var once := Dispatch(page, entries, update);
    DispatchUpdatesIntersected(page, entries, update);
    DispatchUpdatesIntersected(once, entries, update);
  }
}
