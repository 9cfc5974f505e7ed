# include-fragment, modelled in Dafny

A model of `loadDocFragment.js`, the two custom elements behind
client-side includes:

- `<a is="include-fragment" href=...>` (`IncludeDocumentFragment`) is a placeholder that loads the document its hyperlink names.
- `<object is="doc-fragment">` (`DocFragment`) is the loader that the placeholder inserts before itself.

When the loader's `load` event fires with a readable document, its style sheets and root element are spliced into the anchor. When the `load` event finds no readable document (`contentDocument` null), the anchor turns back into an ordinary hyperlink.

The project has five files:

- `wrappers.dfy`: an `Option` type for the nullable DOM values.
- `attributes.dfy` (module `Attributes`): the anchor's attribute map.
  - `setSource` and `resetHyperlink` as functions on that map.
  - The `loading` test of `connectedCallback`.
  - The selector `[href][loading='lazy']`.
- `triggers.dfy` (module `Triggers`): the eligibility test of `displayLazy`.
  - The layout values it reads are inputs.
  - `innerWidth || clientWidth` is written out as a fall-back on zero.
  - The test is proved equal to rectangle containment.
- `tree.dfy` (module `Tree`): the page as a value, a sequence of loaders and anchors.
  - What `display` (`DisplayView`), `replace` (`ReplaceView`) and the static `update` sweep (`Sweep`) do to that sequence.
  - A well-formedness invariant: every loader is directly followed by the consumed anchor it loads for.
- `elements.dfy` (module `Elements`): the two elements as objects that change in place.
  - Class `IncludeFragment` has fields `attrs` and `children`.
  - Class `Page` holds the sibling list.
  - Each method is proved to act on `Page.View()` exactly as the functions of `Tree` say.
  - `update` is a loop over the anchors that one query returned, with its invariant.

The model follows the code in the places where it differs from the element's documented intent:

- `display` has no guard against a second call. `Tree.SecondDisplayAddsLoader` shows that a second call adds a second loader, for the empty href.
- A `load` event with `contentDocument` null resets the hyperlink but keeps the anchor's fallback children. Only the success path clears them (`innerHTML = ''` sits inside the non-null branch).
- Only `onload` is set, so only a `load` event runs `replace`. A fetch that fails with an `error` event never reaches it: the loader stays before the anchor, and the anchor stays consumed with its fallback children. The model has no operation for that event, because the source has none.
- The lazy test is containment in the viewport grown by the anchor's own size, not overlap with it. `Triggers.OverlapIsNotEnough` exhibits an overlapping anchor that is not loaded.
- `setAttribute` turns a null into the string "null". So does `styleSheets[i].href`. `resetHyperlink` on an anchor without `data-src` writes `href="null"`.
- The element's comments call `href` mandatory, but nothing checks it. An eager anchor without `href` is still displayed (loadDocFragment.js:56). Its loader gets `data=""`, because the `href` property of such an anchor is empty (line 66). `setSource` then writes `data-src="null"` (line 101). Only the lazy sweep's selector asks for `[href]`.

## Model

| member | source | states |
|---|---|---|
| Attributes.Consume | loadDocFragment.js:100-104 | `data-src` holds the old `href` text ("null" if absent), `href` is gone, `role` is "none", every other attribute is unchanged |
| Attributes.Reset | loadDocFragment.js:106-110 | `href` holds the old `data-src` text ("null" if absent), `data-src` and `role` are gone, every other attribute is unchanged |
| Attributes.TransitionsAreExclusive | loadDocFragment.js:100-110 | after `setSource` the anchor is consumed and not addressable; after `resetHyperlink` it is addressable and not consumed |
| Attributes.ResetUndoesConsume | loadDocFragment.js:100-110 | `resetHyperlink` after `setSource` gives back the attributes with the old `href` and without `data-src` and `role`, for any start |
| Attributes.RoundTrip | loadDocFragment.js:100-110 | from an addressable anchor, `setSource` then `resetHyperlink` restores the attributes exactly |
| Attributes.ConsumeUndoesReset | loadDocFragment.js:100-110 | from a consumed anchor, `resetHyperlink` then `setSource` restores the attributes exactly |
| Attributes.EagerUnlessLazy | loadDocFragment.js:55-59 | an anchor loads at once if and only if `loading` is not exactly "lazy": absent, "eager" and "LAZY" load, "lazy" does not |
| Attributes.PendingOnlyBeforeConsume | loadDocFragment.js:93-104 | the sweep's selector matches only lazy anchors, never a consumed one, and matches a reset anchor again exactly when it is lazy |
| Triggers.PrintIsAlwaysEligible | loadDocFragment.js:78-79 | a beforeprint event makes every anchor eligible, whatever its box |
| Triggers.EligibleIffContained | loadDocFragment.js:78-86 | for any other event, eligible if and only if the box lies inside the viewport grown by the anchor's width and height, and if and only if the four comparisons hold with the zero fall-back to the client size |
| Triggers.OverlapIsNotEnough | loadDocFragment.js:80-85 | a box that overlaps the grown viewport without lying inside it is not eligible |
| Triggers.FarBelowIsNotEligible | loadDocFragment.js:80-85 | an anchor 2000 pixels down an 800-pixel window is not eligible on scroll, whatever its height |
| Tree.PendingPositions | loadDocFragment.js:93 | every position the query returns holds an anchor with `href` and `loading="lazy"` |
| Tree.PendingPositionsExact | loadDocFragment.js:93 | every anchor with `href` and `loading="lazy"` is returned, and the positions are strictly increasing, so each is returned once and in document order |
| Tree.PendingPositionAt | loadDocFragment.js:93 | the k-th returned position is a pending anchor preceded by exactly k pending anchors, so the query is in document order |
| Tree.DisplayInsertsLoader | loadDocFragment.js:61-71 | `display` grows the page by one: the nodes before are unchanged, then a loader for the anchor's href, then the consumed anchor with its children, then the nodes after |
| Tree.SecondDisplayAddsLoader | loadDocFragment.js:61-71 | displaying an anchor twice leaves two loaders in a row, the second for the empty href, so the first loader is no longer paired with its anchor |
| Tree.DisplayKeepsWellFormed | loadDocFragment.js:61-71 | displaying an anchor that holds `href` keeps every loader followed by its consumed anchor |
| Attributes.HrefProperty | loadDocFragment.js:66 | the `href` property read by `display`: the attribute's text, or "" for an anchor without one |
| Attributes.IsEager | loadDocFragment.js:56 | the test of `connectedCallback`: `loading` is absent or anything but "lazy" |
| Attributes.IsPending | loadDocFragment.js:93 | the attribute part of the sweep's selector: `href` present and `loading` exactly "lazy" |
| Triggers.ViewportWidth | loadDocFragment.js:83 | `innerWidth`, or `clientWidth` when it is zero |
| Triggers.ViewportHeight | loadDocFragment.js:84 | `innerHeight`, or `clientHeight` when it is zero |
| Triggers.InExpandedViewport | loadDocFragment.js:81-84 | the four comparisons of `displayLazy` on the box, the anchor's size and the viewport size |
| Triggers.LazyEligible | loadDocFragment.js:78-85 | `displayLazy` displays for a beforeprint event, or for any other event when the four comparisons hold |
| Attributes.AttrText | loadDocFragment.js:101-107 | the text `setAttribute` stores: the string itself, or "null" for a null value |
| Tree.StylesheetLinks | loadDocFragment.js:19-24 | one `<link rel="stylesheet">` per style sheet of the fetched document, in order, carrying its href text |
| Tree.IsPendingNode | loadDocFragment.js:93 | a node the whole selector matches: an include anchor with `href` and `loading="lazy"` |
| Tree.Splice | loadDocFragment.js:16-27 | the children after a successful load: one link per style sheet with its href ("null" if absent), in order, then the root markup, and nothing else |
| Tree.Triggered | loadDocFragment.js:61-71 | an anchor after `display`: a loader carrying its href property, then the anchor with `setSource` applied and its children kept |
| Tree.DisplayView | loadDocFragment.js:61-71 | the page after `display` of the anchor at position j: the anchor replaced by loader and consumed anchor, everything else in place |
| Tree.Replaced | loadDocFragment.js:14-31 | the loader's next sibling after `replace`: its children become `Splice` of the document, or, for a null document, its hyperlink is reset and its children kept |
| Tree.ReplaceView | loadDocFragment.js:11-34 | the page after `replace` by the loader at position i: its sibling becomes `Replaced` and the loader is removed |
| Tree.Sweep | loadDocFragment.js:91-98 | the page after the static `update`: each pending anchor, in document order and with its own box, is displayed exactly when eligible |
| Tree.SuccessfulLoadSplices | loadDocFragment.js:14-28 | display followed by a successful replace leaves the anchor consumed, its children exactly the style-sheet links then the root markup, and the loader gone |
| Tree.FailedLoadRestoresPage | loadDocFragment.js:29-33 | display followed by a null replace gives back the original page exactly, fallback children included |
| Tree.ReplaceKeepsWellFormed | loadDocFragment.js:11-34 | in a well-formed page every loader's next sibling is an anchor, and `replace` by that loader leaves the page well formed |
| Tree.SweepDisplayStep | loadDocFragment.js:95-97 | one `displayLazy` of the sweep applies `display` to the k-th pending anchor exactly when it is eligible, at its position in the partly swept page |
| Tree.SweepLeavesIneligible | loadDocFragment.js:91-98 | after a sweep, the pending anchors are exactly the ineligible ones in number |
| Tree.PrintSweepIsFinal | loadDocFragment.js:91-98 | after a beforeprint sweep no node of the page is a pending anchor, the query finds nothing, and any later sweep leaves the page unchanged |
| Tree.SweepKeepsWellFormed | loadDocFragment.js:91-98 | a sweep keeps every loader followed by its consumed anchor |
| Elements.Page.QueryPending | loadDocFragment.js:93 | the loop returns exactly the anchors at the pending positions of the page, in document order: each returned anchor is on the page with `href` and `loading="lazy"`, and every such anchor on the page is returned |
| Elements.Page.Replace | loadDocFragment.js:11-34 | the loader leaves the sibling list, and the page becomes `ReplaceView`: the sibling gets the style-sheet links and root markup, or has its hyperlink reset |
| Elements.IncludeFragment.SpliceDocument | loadDocFragment.js:16-27 | the children become exactly one style-sheet link per style sheet, in order, then the root markup; the attributes are unchanged |
| Elements.IncludeFragment.SetSource | loadDocFragment.js:100-104 | the attributes become `Consume` of the old ones; the children are unchanged |
| Elements.IncludeFragment.ResetHyperlink | loadDocFragment.js:106-110 | the attributes become `Reset` of the old ones; the children are unchanged |
| Elements.IncludeFragment.Display | loadDocFragment.js:61-71 | a loader for the old href is inserted right before the anchor, and the page becomes `DisplayView` at the anchor's position |
| Elements.IncludeFragment.ConnectedCallback | loadDocFragment.js:55-59 | the anchor is displayed when eager, and the page is untouched when lazy |
| Elements.IncludeFragment.DisplayLazy | loadDocFragment.js:73-89 | the anchor is displayed when eligible, and the page is untouched otherwise |
| Elements.IncludeFragment.SweepNext | loadDocFragment.js:95-97 | one loop step extends the swept prefix of the sibling list by the untouched siblings up to the k-th queried anchor, then that anchor, with a loader for its old href before it exactly when it is eligible; the page's anchors keep their order |
| Elements.IncludeFragment.Update | loadDocFragment.js:91-98 | the page becomes `Sweep` of the old page, with each queried anchor's box in query order; the page stays valid; the same anchor objects stay on the page in the same order, and only loaders are added; only the page and its own anchors may change |
| Elements.LoaderKeepsAnchors | loadDocFragment.js:63-67 | inserting a loader before a sibling leaves the page's anchors, and their order, unchanged |
| Elements.AnchorsOf | loadDocFragment.js:91-98 | the include anchors among the siblings, in document order: the objects whose identity and order a sweep keeps |

## Left out

- Element registration (`customElements.define`) and the window listeners for load, scroll and beforeprint: `Update` takes the event type as a parameter.
- The asynchronous load: the `DocFragment` constructor's `onload` hook is not modelled. `Page.Replace` is the `load` handler, with `contentDocument` as a parameter. Each call is one `load` event; the interleaving of completions with sweeps is up to the caller.
- HTML text: the XMLSerializer round trip of the loader is left out. The loader is a node carrying its `data`. The fetched root element is an opaque serialised token (`Markup`); the nested fragments it may contain are not parsed or activated. A style-sheet link records only its `href` (its `rel` is always "stylesheet").
- URL resolution: the anchor's `href` property is modelled as the attribute's text, or "" without one, not resolved against the document's base URL.
- Layout: `getBoundingClientRect`, `offsetWidth`/`offsetHeight` and the viewport sizes are integer inputs, not floating-point CSS pixels. Within one sweep each anchor's box is fixed before the sweep starts. The reflow caused by loaders inserted earlier in the same sweep is not modelled.
- Document structure: the page is one flat list of loaders and include anchors in document order. Other elements and nesting depth are not modelled.
- Elements.Page.Replace: requires the loader's next sibling to be an include anchor. The source would throw on a missing sibling, or write into some other element. `Tree.ReplaceKeepsWellFormed` shows that every loader of a well-formed page meets this requirement.
- Elements.IncludeFragment.Display, ConnectedCallback, DisplayLazy: require the anchor to be on the page. A detached anchor (`insertAdjacentHTML` on a parentless element throws) is not modelled.
