# Anchor tracker and Space layout — a Dafny model

This project models the two widgets of the component library that have logic of their own.

**The anchor tracker** (`components/anchor/Anchor.tsx`). Child links register their
fragment identifiers (`#section`) with the tracker. The tracker then works as follows:
- It keeps these links in a duplicate-free, ordered registry.
- On every scroll it picks the active link. That is the registered link whose target
  element has the largest top among those with a top below `offsetTop + bounds`
  (on screen: the lowest-placed target still above the line, the one nearest it).
- It emits `change` only when the active link actually changes.
- `handleScrollTo` marks the clicked link active at once. It then sets the `animating`
  flag and scrolls smoothly to the target. Scroll events are ignored until the
  animation's completion callback clears the flag.

**The Space layout** (`components/space/index.tsx`, `components/space/Item.tsx`).
- Space resolves its `size` prop to a horizontal and a vertical gap (`small`/`middle`/`large` = 8/16/24 px).
- It defaults the alignment to `center` for horizontal layouts.
- It finds the index of the last present child.
- Each item gets a margin towards its successor, halved when a split node sits in between.
- Wrapping rows add a bottom padding.

Modules:
- `Wrappers` (`wrappers.dfy`): `Option`.
- `Anchor` (`anchor.dfy`): the offset computation, fragment extraction, section collection,
  the `reduce` max-selection and the registry, as functions and lemmas. The class
  `Tracker` holds the component state `links`, `activeLink` and `animating`, plus
  `changes`, the log of emitted `change` events.
- `SpaceItem` (`space_item.dfy`): the item style and item rendering.
- `Space` (`space.dfy`): sizes, alignment, the latest-index loop and the layout.

The DOM is a parameter. `Env` maps element ids to the facts `getOffsetTop` reads about an
element: its client-rect count and bounding rectangle. It also holds the scroll container,
either the window with its root `clientTop` or an element with its box top. The override
`getCurrentAnchor` is modelled as the string it returns. The current scroll distance
(`getScroll`) is a parameter of `HandleScrollTo`. The animation's completion callback is
the method `FinishAnimation`. Numbers are exact `real`s.

Two behaviours of the code are easy to miss, and the model keeps both:
- The registry is not an unordered set: it keeps insertion order, and the order matters. On equal tops, the link
  registered first wins, because the `reduce` replaces the running maximum only on a
  strictly greater top.
- `activeLink` starts as `null`. So a first scroll that finds nothing emits `change('')`.

## Model

| member | source | states |
|---|---|---|
| `Anchor.OffsetTopRelative` | components/anchor/Anchor.tsx:25-45 | a missing element or one with no client rects is at 0; a zero-size box gives its raw top; a visible element's offset is relative to an element container and moves with its own top in the window |
| `Anchor.FragmentIff` | components/anchor/Anchor.tsx:47 | the fragment of a link is `f` exactly when `f` is non-empty, holds no `#`, and the link ends in `#` followed by `f` |
| `Anchor.FragmentNoneIff` | components/anchor/Anchor.tsx:47 | a link has no fragment exactly when it contains no `#` or ends with `#` |
| `Anchor.SuffixIsAfterLastHash` | components/anchor/Anchor.tsx:47 | the text after the last `#` is a `#`-free suffix preceded by `#`, and is absent exactly when the string has no `#` |
| `Anchor.SuffixOfSplit` | components/anchor/Anchor.tsx:47 | for any prefix, the text after the last `#` of `p + "#" + f` is `f` when `f` has no `#` |
| `Anchor.SectionsEmptyIff` | components/anchor/Anchor.tsx:119-137 | the `forEach` collects no section exactly when no registered link has a resolvable target with a top below `offsetTop + bounds` |
| `Anchor.MaxSection` | components/anchor/Anchor.tsx:139-141 | the `reduce` returns one of the sections, and its top is at least every section's top |
| `Anchor.MaxSectionIsBest` | components/anchor/Anchor.tsx:119-141 | the reduced section is the first registered candidate whose top is maximal among all candidates |
| `Anchor.BestSkipsNonCandidate` | components/anchor/Anchor.tsx:124-130 | a link without a fragment, without a target, or whose top is not below `offsetTop + bounds` does not change the winner |
| `Anchor.BestTakesHigher` | components/anchor/Anchor.tsx:140 | a later candidate with a strictly larger top than all earlier candidates becomes the winner |
| `Anchor.BestKeepsOnTie` | components/anchor/Anchor.tsx:140 | a later candidate with a top no larger than the winner's leaves the earlier winner, so the earliest link wins ties |
| `Anchor.BestIsUnique` | components/anchor/Anchor.tsx:139-141 | at most one registered position is the winner |
| `Anchor.SelectActiveLinkIsBest` | components/anchor/Anchor.tsx:119-143 | the default selection is `''` exactly when no link qualifies, and otherwise the first registered link with the maximal target top below `offsetTop + bounds` |
| `Anchor.CurrentActiveLinkOverride` | components/anchor/Anchor.tsx:108-117 | a supplied `getCurrentAnchor` result is returned unchanged; with no document the result is `''` |
| `Anchor.Tracker.GetCurrentActiveLink` | components/anchor/Anchor.tsx:108-144 | the loop over the registry and the reduce return the specified selection, with `offsetTop` defaulting to 0 and `bounds` to 5 |
| `Anchor.IndexOf` | components/anchor/Anchor.tsx:212 | `indexOf` is -1 exactly when the link is absent, and otherwise the first position holding it |
| `Anchor.WithoutMembers` | components/anchor/Anchor.tsx:211-216 | after removal a link remains exactly when it was registered and is not the removed one; removing an absent link changes nothing |
| `Anchor.WithoutNoDuplicates` | components/anchor/Anchor.tsx:211-216 | removal keeps the registry duplicate-free |
| `Anchor.SpliceIsWithout` | components/anchor/Anchor.tsx:212-215 | splicing out the found index of a duplicate-free registry drops exactly that link and keeps the others in their order |
| `Anchor.RegisteredFacts` | components/anchor/Anchor.tsx:206-210 | registering is idempotent, keeps the registry duplicate-free, adds exactly the link, and is a no-op for a registered link |
| `Anchor.ReplayRegistry` | components/anchor/Anchor.tsx:206-216 | after any sequence of register/unregister calls the registry has no duplicates and holds a link exactly when its last call was a register, or, with no call, when it was there initially |
| `Anchor.ActiveLinkSetEmitsIffChanged` | components/anchor/Anchor.tsx:145-151 | after a set the active link is the given one, and a `change` carrying it is emitted exactly when the value differed |
| `Anchor.Tracker.constructor` | components/anchor/Anchor.tsx:98-105 | the tracker starts with no links, a `null` active link, not animating, no events |
| `Anchor.Tracker.RegisterLink` | components/anchor/Anchor.tsx:206-210 | the registry grows by the link only when absent and stays duplicate-free; nothing else changes |
| `Anchor.Tracker.UnregisterLink` | components/anchor/Anchor.tsx:211-216 | the registry loses exactly the link, others keep their order, and it stays duplicate-free; nothing else changes |
| `Anchor.Tracker.SetCurrentActiveLink` | components/anchor/Anchor.tsx:145-151 | `activeLink` changes and `change(link)` is emitted if and only if the link differs from the current value |
| `Anchor.Tracker.HandleScroll` | components/anchor/Anchor.tsx:179-189 | while animating nothing changes and nothing is emitted; otherwise the active link is set to the selection at `targetOffset`, else `offsetTop \|\| 0`, with the `bounds` prop |
| `Anchor.Tracker.HandleScrollTo` | components/anchor/Anchor.tsx:152-178 | the link is set active first in every case; the animation starts, with destination `scrollTop + eleOffsetTop - effective offset`, exactly when the link's target resolves, otherwise `animating` is unchanged |
| `Anchor.Tracker.FinishAnimation` | components/anchor/Anchor.tsx:172-175 | the completion callback clears `animating` |
| `Space.GetNumberSizeSpec` | components/space/index.tsx:16-24 | `small`/`middle`/`large` give 8/16/24 (increasing), a number comes back unchanged (0 included), undefined gives 0 |
| `Space.SizesSpec` | components/space/index.tsx:44-58 | `size` defaults to `small`; a scalar gives equal horizontal and vertical gaps; a pair is converted element by element |
| `Space.MergedAlignSpec` | components/space/index.tsx:45-67 | alignment is `center` when none is given and the direction (default horizontal) is horizontal, otherwise the given alignment, and absent exactly when none is given for a vertical layout |
| `Space.LatestIndexUnique` | components/space/index.tsx:79-84 | the last-present-child index is determined by the children |
| `Space.LatestIndexSeparates` | components/space/index.tsx:79-84 | a present child lies before the latest index exactly when some present child follows it |
| `Space.Render` | components/space/index.tsx:41-115 | an empty child list renders nothing; otherwise items keep input order with `index = i` and the given props, the context carries the gap pair and the last-present-child index (0 if none), and wrapping sets `flexWrap: 'wrap'` and `marginBottom = -verticalSize` |
| `Space.SplitOnlyBetweenItems` | components/space/Item.tsx:49-53 | in a laid-out Space a split span follows a present child exactly when a split is set and a later present child exists |
| `SpaceItem.VerticalItemStyle` | components/space/Item.tsx:24-27 | a vertical item has a style exactly when it is before the latest index, namely `marginBottom = horizontalSize / (split ? 2 : 1)` |
| `SpaceItem.HorizontalItemStyle` | components/space/Item.tsx:28-34 | a horizontal item's margin on its margin side is `horizontalSize / (split ? 2 : 1)` exactly when it is before the latest index; no other margin is set; `paddingBottom` is the vertical gap exactly when wrapping |
| `SpaceItem.SplitHalvesGap` | components/space/Item.tsx:26-31 | with a split the margin is exactly half the unsplit margin, which is the horizontal gap |
| `SpaceItem.WrapPaddingAsWrittenIsRef` | components/space/Item.tsx:33 | as written, a wrapping horizontal item passes the `verticalSize` ref object as `paddingBottom`; this is the only difference from the intended style |
| `SpaceItem.RenderItemSpec` | components/space/Item.tsx:39-53 | an item renders nothing without a child; otherwise it renders its content with the corrected item style `ItemStyle`, and a split span exactly when a split is set and the item is before the latest index |

## Left out

- DOM geometry (`getClientRects`, `getBoundingClientRect`, `clientTop`, `document.getElementById`): these become the `Element`/`Container`/`Env` values that `getOffsetTop` is computed from. Real layout is not modelled.
- The smooth-scroll utility `scrollTo` and `getScroll`: these are timer-driven browser utilities. The scroll distance is a parameter, the destination is a result, and the completion callback is `Tracker.FinishAnimation`.
- Overlapping `handleScrollTo` calls: the model does not order pending animations. Each completion callback simply clears `animating`, as the source does, so an earlier animation's completion ends the guard of a later one.
- Listener lifecycle: `addEventListener`, `onMounted`/`onUpdated`/`onBeforeUnmount`, re-attaching to a new container, and `nextTick`. These are event-loop plumbing, not logic.
- `updateInk`: it positions the ink marker with pixel strings and `clientHeight / 2 - 4.5`, which is presentation only.
- Rendering: JSX, `classNames`, `Affix`, `getPrefixCls`, the wrapper's `maxHeight` style, `provide`/`inject` and `filterEmpty` are all outside the model. Their sources are not part of this model. The filtered child lists are inputs.
- `components/button/index.ts`: plugin registration on the host application, with no logic.
- Floating point: numbers are exact reals. NaN, infinities and rounding are not modelled, so `offsetTop || 0` and `size || 0` only map 0 and undefined to 0.
- `Anchor.Tracker.HandleScrollTo`: requires a DOM, because without one the source throws. The default `getContainer` reads `window` before the fragment is tested, and the target lookup reads `document`. That exception is not modelled.
- `Anchor.CurrentActiveLinkOverride`: the override function is modelled by the string it returns. Any effect of calling it is not modelled.
- `Space.SizesSpec`: an array `size` is modelled only as a pair. Arrays of other lengths, and size strings other than the three names, are not modelled.
- `Space.Render`: the container's `marginBottom` is the number `-verticalSize`, not its `-<n>px` string. The class names are reduced to the direction and the merged alignment.
- `SpaceItem.RenderItemSpec`: a split node is modelled only by whether it is truthy. Its content is opaque.
- `SpaceItem.RenderItemSpec`: the item and its split span are rendered with the corrected style `SpaceItem.ItemStyle`, not the as-written `SpaceItem.ItemStyleAsWritten`. So for a wrapping horizontal item the rendered `paddingBottom` is the vertical gap, not the ref object (see Findings).

## Findings

| source | as written | input that shows it | evidently intended | confidence | as-written member | corrected member |
|---|---|---|---|---|---|---|
| components/space/Item.tsx:33 | `paddingBottom: verticalSize` passes the ref created by `toRefs`, not its value, so the style binding receives an object instead of a length | a horizontal Space with `wrap` and any size, e.g. `size="small"`: the item style's `paddingBottom` is the ref object rather than 8 | `paddingBottom: verticalSize.value`, i.e. the vertical gap in pixels | medium, not executed | `SpaceItem.ItemStyleAsWritten` (shown by `SpaceItem.WrapPaddingAsWrittenIsRef`) | `SpaceItem.ItemStyle` (proved by `SpaceItem.HorizontalItemStyle`) |
