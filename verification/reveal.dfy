/**
  The reveal-on-scroll observer of `AnimationController`: each watched card or
  section header that intersects gets the "fade-in-up" class. The element stays
  observed, so later batches may target it again; adding a class is idempotent,
  so nothing is undone or repeated.
 */
module Reveal {

  import opened ClassList
  import opened Observer

  const RevealClass := "fade-in-up"

  /** The class lists of the watched elements. */
  type Page = map<ElementId, Classes>

  function AddReveal(cs: Classes): Classes {
    Add(cs, RevealClass)
  }

  /**
    One observer batch: exactly the elements some intersecting entry targets
    become revealed; revealed elements stay revealed; no other class and no
    other element changes.
   */
  function OnEntries(page: Page, entries: seq<Entry>): (r: Page)
    ensures r.Keys == page.Keys
    ensures forall id :: id in page ==> (RevealClass in r[id] <==> RevealClass in page[id] || Intersected(entries, id))
    ensures forall id :: id in page ==> page[id] <= r[id]
    ensures forall id :: id in page ==> r[id] - {RevealClass} == page[id] - {RevealClass}
  {
    assert Idempotent(AddReveal);
    DispatchUpdatesIntersected(page, entries, AddReveal);
    Dispatch(page, entries, AddReveal)
  }

  /** Reveal is one-shot: any number of later batches keeps an element's revealed state, never removes it. */
  lemma {:induction false} RevealedStaysRevealed(page: Page, batches: seq<seq<Entry>>, id: ElementId)
    requires id in page && RevealClass in page[id]
    ensures id in DispatchAll(page, batches, AddReveal) && RevealClass in DispatchAll(page, batches, AddReveal)[id]
    decreases |batches|
  {
    if |batches| > 0 {
      var next := OnEntries(page, batches[0]);
      assert next == Dispatch(page, batches[0], AddReveal);
      RevealedStaysRevealed(next, batches[1..], id);
    }
  }

  /** Re-delivering a batch that has already been handled changes nothing. */
  lemma OnEntriesIdempotent(page: Page, entries: seq<Entry>)
    ensures OnEntries(OnEntries(page, entries), entries) == OnEntries(page, entries)
  {
    assert Idempotent(AddReveal);
    DispatchTwice(page, entries, AddReveal);
  }
}
