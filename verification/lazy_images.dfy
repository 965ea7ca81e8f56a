/**
  The lazy image loader of `PerformanceOptimizer`: an observed image with a
  `data-src` attribute gets that value as its `src` once it intersects, loses
  its "lazy" class and is no longer observed.
 */
module LazyImages {

  import opened ClassList
  import opened Observer
  import opened Options

  const LazyClass := "lazy"

  /** An `img[data-src]` element: its current `src` (none before loading), its deferred source, classes, and whether it is observed. */
  datatype Image = Image(src: Option<string>, dataSrc: string, classes: Classes, observed: bool)

  /** The state every image reaches once it intersects. */
  predicate Loaded(img: Image) {
    img.src == Some(img.dataSrc) && LazyClass !in img.classes && !img.observed
  }

  /** The callback's work for one intersecting image. */
  function Load(img: Image): (r: Image)
    ensures Loaded(r)
    ensures r.dataSrc == img.dataSrc
    ensures r.classes - {LazyClass} == img.classes - {LazyClass}
  {
    Image(Some(img.dataSrc), img.dataSrc, Remove(img.classes, LazyClass), false)
  }

  /** Loading is one-shot: an image that has loaded is left exactly as it is by any further load. */
  lemma LoadedIsFixed(img: Image)
    requires Loaded(img)
    ensures Load(img) == img
  {
  }

  type Page = map<ElementId, Image>

  /**
    One observer batch: every image some intersecting entry targets is loaded
    from its `data-src`; every other image, including its `src`, is unchanged.
   */
  function OnEntries(page: Page, entries: seq<Entry>): (r: Page)
    ensures r.Keys == page.Keys
    ensures forall id :: id in page && Intersected(entries, id) ==> Loaded(r[id]) && r[id].dataSrc == page[id].dataSrc
    ensures forall id :: id in page && Intersected(entries, id) ==> r[id].classes - {LazyClass} == page[id].classes - {LazyClass}
    ensures forall id :: id in page && !Intersected(entries, id) ==> r[id] == page[id]
  {
    assert Idempotent(Load);
    DispatchUpdatesIntersected(page, entries, Load);
    Dispatch(page, entries, Load)
  }

  /**
    At most one transition per image: once an image has loaded, no sequence of
    later batches changes it again.
   */
  lemma {:induction false} LoadedStaysPut(page: Page, batches: seq<seq<Entry>>, id: ElementId)
    requires id in page && Loaded(page[id])
    ensures id in DispatchAll(page, batches, Load) && DispatchAll(page, batches, Load)[id] == page[id]
    decreases |batches|
  {
    if |batches| > 0 {
      var next := OnEntries(page, batches[0]);
      assert next == Dispatch(page, batches[0], Load);
      LoadedIsFixed(page[id]);
      assert next[id] == page[id];
      LoadedStaysPut(next, batches[1..], id);
    }
  }

  /** An image that no batch reports as intersecting never gets a source. */
  lemma {:induction false} NeverIntersectedNeverLoads(page: Page, batches: seq<seq<Entry>>, id: ElementId)
    requires id in page
    requires forall b :: 0 <= b < |batches| ==> !Intersected(batches[b], id)
    ensures id in DispatchAll(page, batches, Load) && DispatchAll(page, batches, Load)[id] == page[id]
    decreases |batches|
  {
    if |batches| > 0 {
      assert forall b :: 0 <= b < |batches[1..]| ==> batches[1..][b] == batches[b + 1];
      var next := OnEntries(page, batches[0]);
      assert next == Dispatch(page, batches[0], Load);
      NeverIntersectedNeverLoads(next, batches[1..], id);
    }
  }
}
