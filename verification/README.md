# RawatBayi.id landing page behaviour, in Dafny

The page script `js/main.js` wires five controllers to the DOM: `Navigation`,
`AnimationController`, `FormController`, `WhatsAppIntegration` and
`PerformanceOptimizer`, plus the helpers in `Utils`. This project lifts the
sequential logic beneath that wiring into immutable state and pure transition
functions, and proves what the code promises about them:

- `ClassList`: an element's `classList` as a set of tokens, with `add`, `remove`, `toggle`.
- `Navigation`: the header's "scrolled" class as a threshold on the scroll
  offset, the mobile menu as two "active" classes toggled together by the
  hamburger and cleared by a navigation link, and the smooth-scroll target
  (section offset less the 80-unit header).
- `Clock`, `Throttle`, `Debounce`: `Utils.throttle` and `Utils.debounce` over an
  explicit trace of timestamped events, "call at time t" and "the wrapper's
  timer fires at time t". A firing only acts when a timer is pending and due.
- `Viewport`: `Utils.isElementInViewport`, including the `||` fallback to the
  document element's client size when the window size reads 0.
- `Observer`, `Reveal`, `LazyImages`: the two `IntersectionObserver`
  callbacks. `Observer.Dispatch` is their shared loop over a batch of entries and
  `Observer.DispatchAll` delivers successive batches;
  `Reveal` adds "fade-in-up"; `LazyImages` copies `data-src` into `src`,
  removes "lazy" and stops observing.
- `UriEncoding`: `encodeURIComponent` as the URI Handling Functions clause of
  ECMA-262 defines it (unreserved set A-Z a-z 0-9 `-_.!~*'()`, everything else
  as `%XX` over its UTF-8 bytes, upper-case hex), with percent-decoding as its
  inverse.
- `WhatsApp`: the chat link `https://wa.me/` + number with its first `+`
  removed + `?text=` + encoded message.
- `Forms`: the submit button's loading state, the 2000 ms simulated delay,
  and the completion (banner, reset, unlock, in that order).

Browser facts the model takes as inputs: the scroll offset, section offsets
(`sections` maps each link's `href` selector to the `offsetTop` of the section
it selects), bounding boxes and window sizes, the intersection entries a batch
delivers, and the times at which events and timers occur. `window.scrollTo` and
`window.open` are represented by the value they are given (the scroll target,
the URL). The form model also takes as given that the browser does not fire
`submit` while the form's submit button is disabled (`Forms.CanSubmit`).

Observations about the code as written:

- The configured number is the placeholder `"#"`, so the link is
  `https://wa.me/#?text=…`; the `#` opens the fragment and the query ends up
  inside it (`WhatsApp.PlaceholderLink`). This is recorded, not changed.
- `hideLoadingState` writes the fixed text "Kirim Pesan" rather than restoring
  whatever the button said before the submit. The model follows the code;
  `Forms.LabelRestoredIffIdleLabel` states that the label comes back unchanged
  exactly when it was "Kirim Pesan" to begin with.
- `String.prototype.replace` with a string pattern replaces only the first
  match, so only the first `+` of the number is removed.

## Model

| member | source | states |
|---|---|---|
| ClassList.Add | js/main.js:21 | afterwards the token is present and no other token changed |
| ClassList.Remove | js/main.js:23 | afterwards the token is absent and no other token changed |
| ClassList.Toggle | js/main.js:29-30 | the token's presence flips and no other token changed |
| Navigation.HandleScroll | js/main.js:19-25 | the header has "scrolled" iff scrollY > 100; its other classes are untouched |
| Navigation.ScrollBoundary | js/main.js:20 | at exactly 100 the header is not "scrolled"; at 100.5 and 101 it is |
| Navigation.HandleScrollLatestWins | js/main.js:13-25 | the header state depends only on the latest offset; applying the update twice equals applying it once |
| Navigation.HamburgerClick | js/main.js:28-31 | a hamburger click flips both the menu's and the button's "active" state, nothing else |
| Navigation.HamburgerClicksParity | js/main.js:28-31 | an even number of clicks restores the menu exactly; an odd number flips both states |
| Navigation.HamburgerClicksKeepSync | js/main.js:28-31 | menu and button that start in agreement agree after any number of clicks |
| Navigation.NavLinkClick | js/main.js:34-55 | after a link click menu and button are both inactive whatever they were; the scroll target exists iff the section exists and equals its offset minus 80 |
| Navigation.NavLinkClickForgetsMenuState | js/main.js:34-39 | the outcome of a link click does not depend on the prior open/closed state, and a second click changes nothing more |
| Throttle.Next | js/main.js:220-231 | a call runs `func` iff the gate is open, with that call's arguments, and closes the gate until `limit` later; a call on a closed gate changes nothing; the gate reopens only when its due timer fires, and a firing leaves a closed gate either reopened or exactly as it was |
| Throttle.RunsWithinTrace | js/main.js:225-228 | every run of `func` happens at a time between the first and the last event |
| Throttle.NoRunBeforeReopen | js/main.js:228 | from a closed gate nothing runs before its reopening time |
| Throttle.RunsSpaced | js/main.js:220-231 | along any chronological trace successive runs of `func` are at least `limit` apart |
| Throttle.AtMostOncePerWindow | js/main.js:220-231 | any number of calls inside one `limit` window run `func` at most once, from an open gate or one still closed by an earlier run |
| Throttle.ScrollHandlerOncePerFrame | js/main.js:341-346 | the scroll handler, throttled at 16 ms, runs at most once for any burst of scroll events within 16 ms, whatever state an earlier run left the gate in |
| Throttle.DroppedWhileClosed | js/main.js:225-229 | calls on a closed gate are dropped, not queued: they run nothing and leave the gate as it was |
| Debounce.Next | js/main.js:208-218 | a call replaces any pending timer by one due `wait` later carrying its arguments and never runs `func`; a firing runs `func` iff a timer is due, with that timer's arguments |
| Debounce.LastCall | js/main.js:215-216 | the index found is a call and only firings follow it; none means the trace holds no call |
| Debounce.RunMatchesExpected | js/main.js:208-218 | the wrapper's timer always equals the reference reading of the trace: pending with the last call's arguments, due `wait` after it, unless a firing `wait` or more after that call already happened |
| Debounce.FiresAfterQuietPeriod | js/main.js:211-216 | `func` runs at a firing iff there was a call, `wait` has passed since the last one and no earlier firing ran it; it then gets the last call's arguments |
| Viewport.IsElementInViewport | js/main.js:233-242 | the result holds iff the box lies inside the visible area, whose size is innerHeight/innerWidth, or the client size where those read 0 |
| Viewport.InViewportInherited | js/main.js:233-242 | a box inside a box that is in the viewport is in the viewport |
| Viewport.AboveOrLeftNeverInViewport | js/main.js:236-237 | a box sticking out above or left of the viewport is never in it |
| Observer.Dispatch | js/main.js:79-83 | the batch keeps the set of elements and leaves every element no intersecting entry targets unchanged |
| Observer.DispatchUpdatesIntersected | js/main.js:328-335 | with an idempotent update each intersected element is updated exactly once, whatever the number of entries for it |
| Observer.DispatchAll | js/main.js:78-84 | successive batches keep the set of elements the page holds |
| Observer.DispatchTwice | js/main.js:78-84 | delivering the same batch twice equals delivering it once |
| Reveal.OnEntries | js/main.js:78-83 | an element has "fade-in-up" afterwards iff it had it or an intersecting entry targets it; nothing is un-revealed; no other class changes |
| Reveal.RevealedStaysRevealed | js/main.js:80-82 | once revealed, an element stays revealed through any later batches |
| Reveal.OnEntriesIdempotent | js/main.js:80-82 | re-delivering a handled batch changes nothing |
| LazyImages.Load | js/main.js:330-333 | after loading, src is the data-src value, "lazy" is gone, the image is unobserved, and no other class changed |
| LazyImages.LoadedIsFixed | js/main.js:329-334 | a loaded image is left exactly as it is by another load |
| LazyImages.OnEntries | js/main.js:327-336 | every intersected image is loaded from its data-src; every other image, src included, is unchanged |
| LazyImages.LoadedStaysPut | js/main.js:329-334 | once loaded, no later sequence of batches changes an image: the transition happens at most once |
| LazyImages.NeverIntersectedNeverLoads | js/main.js:325-338 | an image no batch reports as intersecting keeps its original (absent) source |
| UriEncoding.Utf8 | js/main.js:304 | a code point takes 1 to 4 bytes, one byte exactly for ASCII (its own code), continuation bytes in 0x80-0xBF |
| UriEncoding.Encode | js/main.js:304 | encodeURIComponent(s) has the unreserved-or-%XX shape and is never shorter than s |
| UriEncoding.EncodeRoundTrip | js/main.js:304 | percent-decoding encodeURIComponent(s) gives back exactly the UTF-8 bytes of s, and the encoding has the unreserved-or-%XX shape |
| UriEncoding.Utf8StringAscii | js/main.js:304 | on ASCII text the decoded bytes are the character codes themselves |
| UriEncoding.PercentEncodedAlphabet | js/main.js:304 | an encoded component holds only unreserved characters, `%` and upper-case hex digits |
| UriEncoding.EncodedHasNoDelimiters | js/main.js:304 | no space, `?`, `&`, `#`, `=` or `+` appears in an encoded message |
| UriEncoding.EncodeConcat | js/main.js:304 | encoding distributes over concatenation: each character is encoded on its own |
| UriEncoding.EncodeLast | js/main.js:304 | the encoding of a string ends with the encoding of its last character |
| UriEncoding.EncodeIdentityIffUnreserved | js/main.js:304 | encoding never shortens, and leaves a string unchanged iff all its characters are unreserved |
| WhatsApp.IndexOf | js/main.js:305-307 | the position found holds the character and none before it does; a position below |s| is found exactly when the character occurs, and |s| otherwise |
| WhatsApp.StripFirstPlus | js/main.js:305-307 | without `+` the number is unchanged; otherwise exactly the character at the first `+` is removed |
| WhatsApp.StripFirstPlusRemovesOne | js/main.js:305-307 | the number is one character shorter and exactly one `+` leaves its multiset of characters |
| WhatsApp.NoPlusKept | js/main.js:305-307 | a number without `+` is used as it is |
| WhatsApp.ChatUrl | js/main.js:303-310 | the link starts with `https://wa.me/`, then the stripped number, then `?text=`, then the encoded message |
| WhatsApp.OneQuerySeparator | js/main.js:305-308 | when the stripped number has no `?`, the link's only `?` is the one that starts `?text=` |
| WhatsApp.ChatUrlRoundTrip | js/main.js:303-310 | reading the link back gives the stripped number and exactly the UTF-8 bytes of the message |
| WhatsApp.ParseAssembled | js/main.js:305-308 | a link assembled from a `?`-free number and any component reads back as that number and the component's decoding |
| WhatsApp.PlainChatUrl | js/main.js:303-310 | a number without `+` and an unreserved message appear in the link verbatim |
| WhatsApp.ExampleLink | js/main.js:303-310 | number 6281234567890 and message "Hi" give `https://wa.me/6281234567890?text=Hi` |
| WhatsApp.InternationalNumber | js/main.js:305-307 | for "+62+812" only the leading `+` is removed |
| WhatsApp.UnreservedLink | js/main.js:303-308 | a message of unreserved characters appears verbatim in the link, after the stripped number |
| WhatsApp.PlaceholderLink | js/main.js:248 | the placeholder number gives `https://wa.me/#?text=…`, with the `#` before the `?` |
| WhatsApp.PlaceholderLinkEnding | js/main.js:248 | with the placeholder number the link ends with the encoding of the message's last character |
| WhatsApp.QuestionMarkEscaped | js/main.js:304 | `?` is sent as `%3F` |
| WhatsApp.FloatingLink | js/main.js:283-288 | the floating button opens `https://wa.me/#?text=` + the encoded greeting, whose closing `?` is `%3F` |
| WhatsApp.ContactLink | js/main.js:292-300 | a contact call-to-action opens `https://wa.me/#?text=` + the encoded greeting, whose closing `.` is kept |
| Forms.ShowLoading | js/main.js:162-168 | a present button becomes disabled with text "Mengirim..."; no button stays no button |
| Forms.HideLoading | js/main.js:170-176 | a present button becomes enabled with text "Kirim Pesan"; no button stays no button |
| Forms.Submit | js/main.js:147-160 | the loading state starts at once, a completion is scheduled 2000 ms later, the fields are untouched |
| Forms.Complete | js/main.js:155-159 | the fields return to their defaults, the button is enabled with "Kirim Pesan", and the effects are banner, reset, unlock, in that order |
| Forms.Tick | js/main.js:155-159 | nothing changes before the earliest completion is due; when it is due it runs once, resetting the fields to the defaults, which stay as they were |
| Forms.LoadingLastsTheDelay | js/main.js:147-176 | after a submit at t the button stays disabled before t+2000 and is enabled, with the fields reset, at t+2000 |
| Forms.LabelRestoredIffIdleLabel | js/main.js:170-176 | the button's text comes back unchanged iff it was "Kirim Pesan" |
| Forms.NoButtonUnchanged | js/main.js:162-176 | a form without a submit button keeps having none through submit and completion |
| Forms.Apply | js/main.js:142-160 | a submit the browser lets through disables a present button and schedules exactly one more completion, fields untouched; a blocked submit changes nothing; a tick never adds a completion; the button never appears or disappears |
| Forms.UnguardedSubmitsOverlap | js/main.js:147-160 | with nothing blocking it, a second submit schedules a second completion, which breaks the one-pending invariant whenever there is a button |
| Forms.GuardedAlways | js/main.js:142-176 | along any events, a form's button is disabled exactly while one completion is pending, and never more than one is |

## Left out

- Counter ramp (`setupCounterAnimation`): it relies on IEEE double accumulation of `target/100`, `Math.ceil` and `parseInt` possibly yielding NaN, which exact reals would not reproduce.
- Hover transforms, the banner and floating-button markup and styles, and the 5000 ms banner removal: presentation only.
- The `DOMContentLoaded` bootstrap, the console greeting, the global error handler, the service-worker stub and the preload `<link>` (which has no source URL): no state to model.
- `FormData` is built in `handleSubmit` but never used.
- DOM queries, `IntersectionObserver` thresholds and margins, `requestAnimationFrame`, `window.scrollTo`'s smooth animation and clamping, and `window.open`: the model keeps only their observable effect.
- Navigation.NavLinkClick: an `href` that is not a valid selector makes `querySelector` throw after `preventDefault`; the model gives the same observable result (no scroll) and does not model the exception.
- Navigation.HandleScroll: the scroll offset is an exact real; NaN is not modelled.
- Viewport.IsElementInViewport: box coordinates are exact reals; NaN is not modelled.
- UriEncoding.Utf8: Dafny characters are Unicode scalar values, so the lone-surrogate `URIError` of `encodeURIComponent` cannot arise and is not modelled.
- Throttle.Next and Debounce.Next: delays are whole milliseconds in 0 .. 2^31 - 1 (`Clock.Delay`); a larger delay, which `setTimeout` wraps to a negative value and then clamps to 0, and a fractional delay, which it truncates, are outside the model. The page passes 16.
- Throttle.Next and Debounce.Next: timer callbacks are modelled as firing at or after their due time, in trace order; browser clamping of nested timers is not modelled.
- Throttle.Next: if `func` throws, `inThrottle` is never set and no reopening timer is scheduled (js/main.js:226-228), so the gate stays open; not modelled, because the only throttled function on the page (js/main.js:342-344) is empty and cannot throw.
- Forms.GuardedAlways: assumes the browser drops a submit while the disabled button is the form's default button; a form with an earlier submit control, a type-less `<button>` elsewhere in it, or a script calling `requestSubmit()` would still fire `submit` and schedule another completion (`Forms.UnguardedSubmitsOverlap` shows the result).
- Forms.Tick: completions run in the order they were scheduled, which equal delays and a monotone clock guarantee.
