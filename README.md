# TextHighlighter engine, modelled in Dafny

This project models the highlight engine of the `<text-highlighter>` custom
element (`text-highlighter.js`) and proves properties of the model.

The engine keeps a set of highlight *regions* over the page. A region is a
`mark`, `s` or `u` element that carries a `data-text-highlighter` id and an
optional `data-color`. The engine does the following:

- cuts a browser selection into ranges, each inside one text leaf;
- wraps each range in a new region;
- merges touching regions of the same style;
- hoists a region painted inside another region out of it;
- joins neighbours that share an id, and folds adjacent text leaves together;
- gives a fresh id to the tail of an id that is no longer contiguous;
- turns regions into addresses (`sources`) and back (`restore`);
- groups sources by style and id (`collect`);
- removes regions (`removeById`, `clear`).

The page is a value. A `Node` is either a `Text(uid, data)` leaf or an
`Element(uid, tag, kind, attrs, children)`. The `uid` stands for the
identity of the live DOM node. Document order is the preorder list
`Order(root)`, and position 0 is the `body`.

Local edits work on one child list, and `Tree.SetChildren` carries them
into the whole tree. Operations that loop over the DOM are methods with
loop invariants, proved against specification functions. The component
itself is the class `Engine.TextHighlighter`.

The modules follow the source:

| module | models |
|---|---|
| Wrappers | `Option` and `Result` |
| Dom | nodes, `textContent`, document order |
| Names | `wrapperToTagname`, `tagNameToWrapper`, `#parseBoolean` |
| Highlightability | `#nodeIsHighlightable` |
| Walk | `#nextNode`, `#nextTextNode`, `#findFirstTextChild` |
| Regions | `#isHighlight`, the `doms` selector, flatness |
| Coalesce | `#cleanNode`, `#isEmpty`, `#fixTextContent` |
| Tree | paths into the tree |
| Paint | `#wrapRange`, `#tryMergeByType` |
| Merge | `#mergeAdjacentById` |
| Extract | `#extractOverlapped` |
| Fork | `#refreshId` |
| Select | the range decomposition of `highlight` |
| Codec | `sources`, `restore` |
| Collect | `collect` |
| Unwrap | `removeById`, `clear` |
| Engine | the component and its public methods |

## Model

| member | source | states |
|---|---|---|
| Names.LowerIsLower | text-highlighter.js:433 | lower-casing leaves no capital letter, keeps every other character, turns each capital into its small letter, and is idempotent |
| Names.WrapperToTagname | text-highlighter.js:421-426 | the tag is `mark`, `s`, `u` or `span`; any wrapper other than the three allowed ones gives `span` |
| Names.TagNameToWrapper | text-highlighter.js:432-439 | an unknown tag comes back lower-cased; `mark`/`s`/`u` in any case give an allowed wrapper |
| Names.WrapperRoundTrip | text-highlighter.js:421-439 | `tagNameToWrapper(wrapperToTagname(w)) == w` for `mark`, `strike` and `underline` |
| Names.TagNameCaseInsensitive | text-highlighter.js:432-439 | two tags that agree after lower-casing map to the same wrapper |
| Names.TagNameOfLowered | text-highlighter.js:433 | an upper-case tag name maps like its lower-case form |
| Names.ParseBoolean | text-highlighter.js:731-740 | null gives null; `""` and `"true"` give true; `"false"` gives false; it is an error exactly for any other string |
| Highlightability.Closest | text-highlighter.js:613-614 | `closest`: the deepest marked element on the chain, and none below it; none when nothing is marked |
| Highlightability.IgnoredSpec | text-highlighter.js:615-617 | some ignore-selector matches iff one of them matches an element of the chain |
| Highlightability.AcceptsIsSpec | text-highlighter.js:608-622 | the `closest`-based decision holds exactly when no selector matches and some highlightable element has no unhighlightable element below it |
| Highlightability.Chain | text-highlighter.js:609 | the chain runs from the root to the judged element, which is its last entry |
| Walk.NextNode | text-highlighter.js:642-646 | `#nextNode` is the first position past the node's subtree; there is none from the body or the last subtree |
| Walk.NextNodeClimbs | text-highlighter.js:642-646 | the next node is the next sibling when there is one; otherwise it is the parent's next node, and nothing when the parent is the body |
| Walk.Step | text-highlighter.js:661-677 | one step reports a text leaf only when it is not `start` and is not a blank line break; from `start` it skips the subtree |
| Walk.NextTextNode | text-highlighter.js:654-680 | the result is a later text leaf, never `start` or `end`, never a blank leaf with a line break |
| Walk.NextTextNodeIsFirst | text-highlighter.js:654-680 | `#nextTextNode` answers a leaf iff it is the first reportable leaf the walk reaches before anything stops it, and nothing iff there is none |
| Walk.SameWalkNextTextNode | text-highlighter.js:654-680 | two pages that agree on shape, text, kinds and rendering give the same `#nextTextNode` answers |
| Walk.FindFirstTextChild | text-highlighter.js:445-449 | the result is the text leaf reached by following first children, inside the node's subtree; a text node is its own result; nothing exactly when an element without children comes first |
| Coalesce.DropFirstEmpty | text-highlighter.js:702 | only an empty first text leaf is removed; the text is kept |
| Coalesce.DropLastEmpty | text-highlighter.js:703 | only an empty last text leaf is removed; the text is kept |
| Coalesce.CleanEnds | text-highlighter.js:702-703 | an element loses only an empty first and an empty last text child; a text leaf is unchanged |
| Coalesce.CleanNode | text-highlighter.js:700-710 | `#cleanNode` removes only empty text neighbours and empty end children, and keeps the text |
| Coalesce.FixTextContent | text-highlighter.js:554-562 | the loop computes the left-to-right folding `FixedText` |
| Coalesce.FixedTextContent | text-highlighter.js:554-562 | coalescing keeps the concatenated text |
| Coalesce.FixedTextElements | text-highlighter.js:554-562 | coalescing keeps every element child in order and never lengthens the list |
| Coalesce.FixedTextCoalesces | text-highlighter.js:557-561 | without a run of three text leaves, no two text leaves remain side by side |
| Coalesce.ThreeTextsBecomeTwo | text-highlighter.js:557-561 | a run of three text leaves comes out as two: the first pair is folded, the third is skipped |
| Tree.GetParent | text-highlighter.js:457 | a node reached by a path is a child of the element its path prefix reaches (`parentElement`) |
| Paint.RegionAttrs | text-highlighter.js:688-690 | the new region carries the id, and carries the color exactly when the color is non-empty |
| Paint.NewRegion | text-highlighter.js:688-690 | the region is an HTML element with the wrapper's tag |
| Paint.NewRegionIsHighlight | text-highlighter.js:688-690 | a new region is a highlight and a `doms` member iff its wrapper is allowed, and its tag maps back to the wrapper |
| Paint.Surround | text-highlighter.js:687-694 | `surroundContents` plus `#cleanNode`: text before, region holding `data[s..e]`, text after, with the empty pieces dropped |
| Paint.WrapRange | text-highlighter.js:687-694 | only the wrapped leaf is replaced; the list's text is unchanged |
| Paint.RelabelContent | text-highlighter.js:466 | relabelling ids keeps the text |
| Paint.RelabelRemoves | text-highlighter.js:465-466 | after relabelling `from` to another id, nothing carries `from` |
| Paint.RelabelCarries | text-highlighter.js:465-466 | other ids are untouched; `to` is carried iff `from` or `to` was |
| Paint.RelabelSame | text-highlighter.js:466 | relabelling an id to itself changes nothing |
| Paint.TryMergeByType | text-highlighter.js:455-470 | same wrapper, same color and an id: every element with that id takes the new id and the element's text leaves are coalesced; otherwise nothing changes; the text is kept |
| Paint.MergedByType | text-highlighter.js:455-470 | a page that fails the style test is unchanged; after a merge the old id is carried by no element, unless it was the configured one |
| Paint.MergedByTypeAbsent | text-highlighter.js:466-468 | a merge brings in no region id other than the configured one |
| Merge.Lo | text-highlighter.js:580-586 | the run starts one earlier exactly when the previous sibling is a highlight with the same id |
| Merge.Hi | text-highlighter.js:573-579 | the run ends one later exactly when `mergeNext` holds and the next sibling is a highlight with the same id |
| Merge.Joined | text-highlighter.js:575-585 | the merged node holds the previous, own and next text in order |
| Merge.AppendChildren | text-highlighter.js:576 | the `append` loop moves the children over in order |
| Merge.PrependChildren | text-highlighter.js:583 | the `prepend` loop moves the children over in order |
| Merge.MergeAdjacentById | text-highlighter.js:568-589 | a non-highlight is untouched; otherwise same-id neighbours are absorbed, empty leaves are cleaned and text is coalesced; the text is kept and a flat list stays flat |
| Merge.MergedContent | text-highlighter.js:568-589 | absorbing the neighbours keeps the list's text |
| Merge.MergeLabels | text-highlighter.js:568-589 | absorbing same-id neighbours leaves every character in the region it was in |
| Merge.MergeUids | text-highlighter.js:568-589 | the merge keeps no node but those of the absorbed run and its neighbours |
| Merge.FixedTextFlat | text-highlighter.js:554-562 | coalescing keeps a list flat |
| Extract.OuterConfig | text-highlighter.js:521-525 | the re-wrap config is the outer region's id, wrapper and color |
| Extract.Rewrap | text-highlighter.js:532-538 | a text child is wrapped in a region of the outer style; an element child is kept; the text is kept |
| Extract.ExtractStep | text-highlighter.js:529-547 | one turn keeps the text and shrinks the outer region by its first child; every character stays in its region, with a bare text child now in a region of the outer id; when every region with the outer id has the outer's style, that still holds, so the new region has the outer's wrapper and color too; new nodes take identities from the counter; a flat list stays flat |
| Extract.RewrapLabel | text-highlighter.js:532-538 | a rewrapped text child is a region with the outer id; an element child keeps its own region |
| Extract.HoistAll | text-highlighter.js:529-547 | the loop empties or absorbs the outer region; the text is kept and each character is in the region `HoistedLabels` gives it; every region with the outer id keeps the outer's id, wrapper and color, as before the loop |
| Extract.RemoveEmptyShell | text-highlighter.js:548 | removing the emptied region keeps the text and the labels, and a flat list stays flat |
| Extract.ExtractOverlapped | text-highlighter.js:518-551 | the outer region's id is answered iff the node is a highlight with an id, and otherwise nothing changes; the text is kept; the outer region is gone, and each character of its children is in its own element region or, for bare text, in a region with the outer id, in the original order; when every region with the outer id had the outer's style, every region with that id on the result has the outer's id, wrapper and color; a region painted inside a region leaves a flat list |
| Extract.OuterConfigStyle | text-highlighter.js:521-537 | a bare text child is re-wrapped in a highlight whose id, wrapper and color are the outer region's |
| Extract.MergeStyled | text-highlighter.js:568-589 | `#mergeAdjacentById` keeps every region it leaves in the style it had: the merged node keeps its tag and attributes |
| Extract.LabelledStyled | text-highlighter.js:521-537 | in a list where every region with an id has one style, a character lies in a region with that id exactly when it lies in a region of that id, wrapper and color |
| Extract.StuckOnEmptyText | text-highlighter.js:536 | as written, an empty first text child is never removed, so the loop never progresses |
| Extract.PassesAsWritten | text-highlighter.js:529-536 | passes of the loop as written never lengthen the outer region's children |
| Fork.TaggedFromComplete | text-highlighter.js:474-483 | `querySelectorAll` lists every region with the id, once each, in document order |
| Fork.NextParent | text-highlighter.js:491 | the walk's next parent lies strictly further in document order |
| Fork.WalkMatches | text-highlighter.js:491-498 | the loop collects a chain of same-id parents from the first region and stops where the id changes or the last region is reached |
| Fork.RefreshId | text-highlighter.js:473-507 | with fewer than two regions nothing changes; otherwise the prefix keeps the id, and when the walk hit another id every unvisited region gets the fresh id |
| Fork.SetIdsContent | text-highlighter.js:502-506 | relabelling keeps the text |
| Fork.OrderSetIds | text-highlighter.js:502-506 | relabelling keeps the document order and changes only labels |
| Fork.UnvisitedAt | text-highlighter.js:502-503 | a node is relabelled iff it is a region with the id that the walk did not visit |
| Fork.ForkLabels | text-highlighter.js:473-507 | after the fork, each unvisited same-id region carries the new id, and every other node keeps its label; shape and text are kept |
| Fork.ForkSplits | text-highlighter.js:491-506 | with a new id absent from the page: the regions with the new id are exactly the unvisited same-id regions, the regions keeping `id` are exactly the visited ones, and these still form the walked chain |
| Fork.ForkTailSplit | text-highlighter.js:501-506 | two unvisited regions with a region of a third id between them both get the new id, so the tail is not made contiguous |
| Fork.ForkKeepsLink | text-highlighter.js:492 | relabelling does not change the walk from one chain member to the next |
| Codec.NthNamed | text-highlighter.js:351 | `getElementsByTagName(tag)[index]` is the element with that tag and that many same-tag elements before it |
| Codec.ParentRoundTrip | text-highlighter.js:312-321 | the saved `{tagName, index}` of an element leads back to that element |
| Codec.SourceOf | text-highlighter.js:285-325 | a source exists iff the region has a non-empty id, and it holds the region's text, id, wrapper and color |
| Codec.SourceLeadsBack | text-highlighter.js:296-321 | a source's parent reference finds the region's parent, and its index and offset are the region's address among the siblings |
| Codec.DomsFrom | text-highlighter.js:129-140 | `doms` is exactly the region elements, in document order |
| Codec.SourceList | text-highlighter.js:281-326 | the sources are exactly those of the regions with an id |
| Codec.Sources | text-highlighter.js:281-326 | the loop builds `SourceList` over `doms` |
| Codec.RestoreAt | text-highlighter.js:352-355 | restoring succeeds iff the child at the index is text long enough; the text is kept and the region holds `data[offset..offset+len]` |
| Codec.RestoreOne | text-highlighter.js:350-355 | a missing parent is skipped; otherwise the parent's list is edited and the text is kept |
| Codec.Restore | text-highlighter.js:347-362 | the loop computes `RestoreAll`; on an error the page is the one the sources before the failing source gave (`StoppedAt`), and the text is kept |
| Codec.RestoreLoop | text-highlighter.js:347-362 | the loop stops at the first failing source with its error, the page being the restore of the sources before it; without a failure it has restored every source |
| Codec.RestoreFails | text-highlighter.js:347-362 | a source that fails after a successful prefix ends the whole restore with its error, the prefix's page kept |
| Codec.RoundTrip | text-highlighter.js:281-362 | on a parsed child list, unwrapping a region and restoring from its source gives one region with the same text, at the same index and address, and leaves every other leaf alone |
| Codec.RoundTripConfig | text-highlighter.js:281-362 | restoring with the saved config brings back a region with the same id, the same wrapper, the same color and the same text, at the same index |
| Collect.GroupMembers | text-highlighter.js:336-341 | a source is in the list under a key and id iff its config has that key and id |
| Collect.GroupCount | text-highlighter.js:336-341 | each source lands in its own bucket as often as it occurs, and in no other |
| Collect.Collect | text-highlighter.js:329-344 | the nested map is the grouping: each list is its group, in `sources()` order, and there are no empty buckets |
| Collect.CollectedPlaces | text-highlighter.js:336-341 | every source is in exactly the list of its own key and id |
| Unwrap.UnwrapSeq | text-highlighter.js:368-369 | `outerHTML = innerHTML` on the matched elements keeps the text |
| Unwrap.UnwrapDoc | text-highlighter.js:365-371 | the body stays and keeps its text |
| Unwrap.UnwrapRemovesAll | text-highlighter.js:368-369 | when no matched element sits in another, none remains |
| Unwrap.UnwrapNoMatch | text-highlighter.js:368-369 | without matches the page is unchanged |
| Unwrap.UnwrapIdempotent | text-highlighter.js:365-371 | a second removal changes nothing |
| Unwrap.NoMatchNoId | text-highlighter.js:367 | the selector finds nothing iff the id is absent |
| Unwrap.RemoveByIdIds | text-highlighter.js:365-371 | removal by id removes exactly that id and keeps every other |
| Unwrap.FlatNestFree | text-highlighter.js:376-377 | on a flat page no `doms` member sits in another |
| Select.ChildAt | text-highlighter.js:225 | `childNodes[k]` is the child with index `k`, and nothing exactly when there is none |
| Select.EndNode | text-highlighter.js:221-225 | `end` is a node of the page, when there is one |
| Select.FirstLeaf | text-highlighter.js:235-240 | the walk starts at a text leaf |
| Select.WalkLeaves | text-highlighter.js:241-248 | the loop gives the ranges and flag of `WalkRanges` |
| Select.Decompose | text-highlighter.js:219-253 | the range cut, given the `end` node, gives the ranges and flag of `Decomposition` |
| Select.WalkFacts | text-highlighter.js:241-248 | the walk gives non-empty ranges on highlightable leaves, in increasing order, never on the end node, whole except on the start leaf, and sets the flag when it gives any |
| Select.DecompositionFacts | text-highlighter.js:219-253 | every range is non-empty on a highlightable leaf; the start leaf is cut from the start offset, the end leaf up to the end offset, and every other leaf is whole; the node past the range is never cut; a range off the end leaf sets the flag |
| Select.DecompositionDistinct | text-highlighter.js:219-253 | no leaf is cut twice |
| Select.WalkComplete | text-highlighter.js:241-248 | every highlightable leaf the walk visits gives its range, and there are no ranges on other leaves |
| Select.DecompositionComplete | text-highlighter.js:219-253 | every highlightable leaf walked gives its range (whole, or from the start offset on the start leaf), the end leaf gives its range up to the end offset, and no other leaf gets one |
| Select.PastEndBoundary | text-highlighter.js:221-251 | as written, an end boundary at an element makes the text leaf just past the range receive a range |
| Select.PastEndOffset | text-highlighter.js:235-251 | as written, when the first leaf is the end leaf the walk takes it whole, past the end offset |
| Select.WalkEndOk | text-highlighter.js:221-225 | with no `end`, stopping the walk at the first node past the common ancestor's subtree is an accepted `end` (never the start container) |
| Select.NextTextBefore | text-highlighter.js:654-680 | inside a subtree that ends where the walk stops, `#nextTextNode` answers a leaf before that stop |
| Select.BoundedWalkInside | text-highlighter.js:235-248 | with no `end` and the walk stopped by `WalkEnd`, every range lies on a leaf of the common ancestor's subtree |
| Select.PastCommonAncestor | text-highlighter.js:221-225 | as written, a range over a paragraph's contents on `<body><p>ab</p>cd</body>` has no `end`, and the text after the paragraph is cut too; stopped by `WalkEnd`, only the paragraph's text is cut |
| Engine.PosFromUnique | text-highlighter.js:219-225 | with unique identities, a node is found again at its own position |
| Engine.ResolveRefs | text-highlighter.js:219-225 | naming a range by identities and resolving it on the same page gives the range back |
| Engine.LiveOffsetSame | text-highlighter.js:239-250 | with no child removed, a live boundary keeps its offset |
| Engine.LiveOffsetAfterRemoval | text-highlighter.js:554-562 | when `#fixTextContent` removes a child of a boundary's element, the boundary moves back by one if the child was before it, and stays otherwise |
| Engine.MergeTarget | text-highlighter.js:456-458 | the merge target is an element: the node, or the parent of a text leaf |
| Engine.MergeAround | text-highlighter.js:455-458 | with no target the page is unchanged; with one, the page is `MergedByType` on it; the text is kept |
| Engine.MergedAround | text-highlighter.js:455-470 | when the touching region has the configured style and another id, that id is gone from the page |
| Engine.MergedAroundAbsent | text-highlighter.js:466-468 | the merge brings in no region id other than the configured one |
| Engine.MergeEnds | text-highlighter.js:226-234 | the page is the merge at the start container and then, unless the range lies in one leaf, at `end`; every id handed over is gone from the page; the text is kept |
| Engine.WrapLeaves | text-highlighter.js:255-262 | the text is kept; the identities of the painted regions are increasing and drawn from `uid0` on; the `j`-th region is made for the config and holds `data[s..e]` of the range it paints, from the leaf of the original page |
| Engine.WrapOne | text-highlighter.js:687-694 | a non-empty range on a leaf still holding it is painted as a region for the config; otherwise nothing changes; earlier regions and the text stay |
| Engine.WrapPaints | text-highlighter.js:687-694 | wrapping a non-empty range of an original leaf paints it with the range's characters |
| Engine.WrapKeepsRegion | text-highlighter.js:255-262 | wrapping another range keeps a region painted earlier |
| Engine.WrapLeavesFrom | text-highlighter.js:255-262 | after a wrap, every old text leaf is still a prefix of a leaf of the original page |
| Engine.WrapStep | text-highlighter.js:255-262 | one painted range extends the loop invariant of `WrapLeaves` |
| Engine.ExtractAll | text-highlighter.js:264-269 | extraction keeps the text, and the split ids are collected without repeats |
| Engine.RefreshAll | text-highlighter.js:271 | refreshing keeps the text and draws at most one id per split id |
| Engine.EndAfterMerge | text-highlighter.js:221-234 | `end`, fixed before the merges, is the end container when that is text or not the common ancestor, and otherwise the node with the saved identity, if it is still on the page |
| Engine.EndAfterNoMerge | text-highlighter.js:221-225 | when the merges changed nothing, the `end` fixed beforehand is the `end` of the page |
| Engine.PaintSpan | text-highlighter.js:219-271 | cutting, with `end` as fixed before the merges (and, with no `end`, the walk stopped at the end of the common ancestor), then wrapping, extracting and refreshing keep the page's text |
| Engine.MergeAndPaint | text-highlighter.js:219-271 | the merges and the painting keep the page's text, and the counters only grow |
| Engine.ClearLeavesNoRegion | text-highlighter.js:376-377 | `clear()` on a flat page leaves no region |
| Engine.RemoveByIdLeavesOthers | text-highlighter.js:365-371 | `removeById(id)` removes exactly `id` from the page's ids |
| Engine.TextHighlighter.constructor | text-highlighter.js:34-59 | a new component has the defaults: no auto flags, no color, wrapper `mark` |
| Engine.TextHighlighter.Reset | text-highlighter.js:392-396 | color and wrapper go back to their defaults, and nothing else changes |
| Engine.TextHighlighter.AttributeChanged | text-highlighter.js:173-196 | a boolean attribute is parsed, and a bad value is an error that changes nothing; color and wrapper fall back to their defaults; only the named setting changes; the `autoload` branch is the callback's own, though `observedAttributes` never delivers that name |
| Engine.TextHighlighter.Save | text-highlighter.js:398-404 | the store holds the page's sources |
| Engine.TextHighlighter.Load | text-highlighter.js:406-415 | an empty store changes nothing; otherwise the page is the one `restore` leaves (`Codec.Restored`): all sources restored, or, on the error that is swallowed (answered as a ghost), the page after the sources before the failing one; the identity counter moves past the restore's new nodes and the text is kept |
| Engine.TextHighlighter.RemoveById | text-highlighter.js:365-371 | the page is the unwrap by id; it saves when `autoSave` is on |
| Engine.TextHighlighter.Highlight | text-highlighter.js:199-278 | nothing happens without options and auto-highlight, or on a collapsed or missing selection; the text is always kept; the store changes only by an auto-save |
| Engine.TextHighlighter.Clear | text-highlighter.js:373-390 | a collapsed or missing selection unwraps every `doms` member; otherwise the page is the painted page with the drawn id unwrapped; the text is kept; it saves when `autoSave` is on |

## Left out

- Events, `console.log` logging, event listeners, `setTimeout` in `connectedCallback` and the custom-element registration are side-effect plumbing and are not modelled.
- `localStorage` and `JSON` are not modelled. The store is a field holding the sources. Serialising drops the `node` reference, which `restore` never reads.
- `crypto.randomUUID` is an oracle `nat -> string` that the component draws from in order.
- CSS selector matching in `closest` is modelled as a set of selector names per element.
- Rendering (`offsetParent`) is a per-element `rendered` flag.
- Browser `Selection`/`Range` internals are not modelled. A range is one selection range given by positions. Only that range is highlighted; several selection ranges are not modelled.
- Engine.PaintSpan: live ranges are not modelled. The range is found again by its containers' identities after the boundary merges. An offset into an element follows the children removed before it, as a live range's does (`Engine.LiveOffset`), and `end` is the node fixed before the merges (`Engine.EndAfterMerge`). If a container was itself folded away, the browser moves the boundary to its parent; the model stops after the merges instead. The contract states only that the text is kept and the counters grow; it does not say which regions are painted, extracted or refreshed.
- Extract.ExtractOverlapped: the wrapper and color of the regions holding the hoisted text are stated under the premise that every region with the outer id already has the outer's style (`StyledAround`), as regions painted by one `highlight` call do. A same-id neighbour of another style would be absorbed into a merged node of its own style.
- Engine.WrapLeaves: a range whose leaf has left the page, or is no longer long enough, is skipped. The empty-region removal (`node.remove()` when its text is empty) is never reached, because every range of the decomposition is non-empty (`Select.DecompositionFacts`).
- Engine.ExtractAll: a region whose parent is the `body` is skipped. The body is never a highlight.
- Engine.TextHighlighter.Highlight: the contract states that the text is kept, the no-op cases and the settings. It does not state the final shape of the page, such as flatness of the whole page or which leaves end up under the new id; the passes it is built from state parts of it (`Engine.WrapLeaves`, `Extract.ExtractOverlapped`, `Fork.ForkSplits`).
- Select.Decomposition: when the end container lies inside a subtree the walk skips (an element that is not rendered, an SVG subtree, the start container's own subtree), the walk never meets `end` and goes on past the range, as the source does; the model keeps this, and bounds the walk at the common ancestor only when there is no `end` (`Select.WalkEnd`).
- Codec.RestoreAt: a source whose child at `index` is an element is treated as an error. The browser would place the selection inside that element, which this model does not follow.
- Codec.RoundTrip: the round trip is proved on one child list that is parsed (no empty or adjacent text leaves). It is not proved for a whole page with several regions.
- Unique node identities are assumed by `Engine.ResolveRefs` and `Fork.ForkLabels`. They are not proved to be kept by every edit.
- Engine.MergeAndPaint: states only that the text is kept and the counters grow; what is painted is stated by `Engine.WrapLeaves`.
- Engine.ExtractAll: states only that the text is kept and the split ids are distinct; what each extraction does is stated by `Extract.ExtractOverlapped`.
- Engine.RefreshAll: states only that the text is kept and how many ids are drawn; what each fork does is stated by `Fork.RefreshId` and `Fork.ForkSplits`.
- Engine.WrapLeaves: does not state that every range is wrapped, because a range whose leaf has left the page or was shortened is skipped; it states what each wrapped range became.
- Engine.TextHighlighter.Clear: with an active selection, the contract ties the page to the painted page with the drawn id removed, but does not say which regions the painting made.
- Fork.ForkSplits: the new id is assumed absent from the page. `crypto.randomUUID` is an arbitrary oracle here, so freshness is a premise and is not proved.
- Fork.RefreshId: as written, the tail that gets the new id is not made contiguous (`Fork.ForkTailSplit`); the model keeps that behaviour.
- Lengths and offsets count characters (code points). The browser counts UTF-16 code units, so saved offsets and lengths differ on text outside the Basic Multilingual Plane.
- Names.TagNameToWrapper: lower-casing is ASCII-only; Unicode `toLowerCase` is not modelled (it can change the length of a string).
- Highlightability.Chain: the chain stops at the `body`; `closest` would also look at `<html>`, which the model does not hold.
- Unwrap.UnwrapSeq: `outerHTML = innerHTML` re-parses the element in the browser, giving new nodes, joining adjacent text leaves and dropping empty ones. The model splices the children in as they are.
- Comment nodes are not modelled: a `Node` is text or an element. The special cases for comments in `#nextTextNode` and `sources()` are therefore absent.
- Unwrap.NoMatchNoId: the CSS selector built from the id is modelled as an exact id match. An id containing `"` or `\` would break or change the selector in the browser.
- `#fixTextContent` is modelled as written: a run of three text leaves becomes two (`Coalesce.ThreeTextsBecomeTwo`).
- The key order of the `Map`s built by `collect` is not modelled. Dafny maps are unordered; the order of each per-id list is modelled.

## Findings

| source | as written | input that shows it | evidently intended | confidence | as-written member | corrected member |
|---|---|---|---|---|---|---|
| text-highlighter.js:536 | an empty first text child makes the selection collapsed, and `continue` retries without removing the child | an outer region whose first child is an empty text leaf | the empty leaf is dropped and the loop goes on | not executed | Extract.StuckOnEmptyText | Extract.ExtractOverlapped |
| text-highlighter.js:221-225, 249-251 | with the end boundary at an element, `end` is the child just past the range; when that child is text it is cut at `[0, endOffset)`, an element offset used as a character offset | a range ending at `(p, 1)` whose child `p.childNodes[1]` is a highlightable text leaf | only the end container is cut at the end offset; the node past the range is left alone | not executed | Select.PastEndBoundary | Select.DecompositionFacts |
| text-highlighter.js:235-251 | when the first leaf of the walk is already `end`, the `do` body runs once on it and takes it whole | a range from an element into its first text leaf, ending inside that leaf | the end leaf is cut only at the end offset | not executed | Select.PastEndOffset | Select.Decompose |
| text-highlighter.js:221-225 | with the end boundary after the common ancestor's last child, `end` is `undefined`, so `#nextTextNode` never meets it and the walk runs to the end of the `body` | `range.selectNodeContents(p)` on `<body><p>ab</p>cd</body>`: "cd" is painted too | the walk stops at the end of the common ancestor's subtree | not executed | Select.PastCommonAncestor | Select.BoundedWalkInside |
