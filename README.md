# MatrixView selection model

`MatrixView` (javascripts/matrixview.js) is a MooTools class for a list of
items laid out as a grid (`li` elements in a container). It selects items
with the mouse (click, shift-click, meta-click, rubber-band drag) and with
the keyboard (arrows move, shift-arrows extend, meta-A selects all, Enter
opens, Delete/Backspace asks for deletion). It keeps the selection twice:
as the CSS class `selected` on the items, and as the array `selectedItems`.
It reports through the events `select`, `deselect`, `open` and `delete`.

This project models that selection state machine and proves what each
handler does to both representations. Both describe the same set only under
conditions, and the model pins those conditions down.

## Structure

- `base.dfy`: `Option` and the four directions.
- `geometry.dfy`: integer boxes and the `Position.within` test, which counts
  the left and top edges in and the right and bottom edges out. Also the
  rubber-band rectangle of `mousemove` and its four-corner hit test.
- `keys.dfy`: the `keypress` dispatch table. It comes twice: as the source
  spells it, and as evidently intended (see Findings).
- `dom.dfy`: `Element.getAncestor`, as an imperative walk up a sequence of
  parent indices.
- `views.dfy`: the `View` value and the sequence helpers.
  - A `View` holds the `selected` flags (`seq<bool>`, one per item in
    document order) and `selectedItems` (`seq<Option<nat>>`, where `None`
    is a hole left by nulling an entry).
  - It also holds the drag state, the log of fired events and the log of
    scroll requests.
- `selection.dfy`: one specification function per handler, on `View`s. Each
  `each` loop of the source is a fold over a prefix.
- `selection_facts.dfy`: the lemmas about those functions.
- `matrix_view.dfy`: the class `MatrixView`.
  - Its fields are `const flags: array<bool>` (the classes, updated in
    place), `selectedItems`, `dragging`, `originX`, `originY` and the two
    logs.
  - Every handler is a method; those that walk the items do so with loops
    over the array. Each ensures
    `Model() == Selection.<Handler>(old(Model()), ...)`.

Items are numbered 0..n-1 in document order. Page geometry comes in as
parameters (`seq<Item>`: box and bottom margin per item). So do the drag
origin, the pointer and the container position. The event target is passed
as the index of the `li` that `getAncestor('li')` found, or `None`.

Two representations (flags, sequence) agree when an item is flagged exactly
when it occurs in `selectedItems`. `Consistent` in the model means they agree
and no item is listed twice. The model shows which handlers keep
consistency:

- Kept: plain, meta and backward shift selection, select-all, the moves,
  expansion left, up and down, and the drag.
- Broken: `open` flags without listing. Forward shift-select and
  `expandSelectionRight` can list an item twice. Concrete counterexamples
  are proved for each.

## Model

| member | source | states |
|---|---|---|
| MatrixViews.MatrixView.constructor | javascripts/matrixview.js:19-26 | a new view has no flag set, an empty `selectedItems`, no drag and empty logs |
| MatrixViews.MatrixView.FirstSelected | javascripts/matrixview.js:189 | the loop returns the first flagged item (`getElement('li.selected')`), or none |
| MatrixViews.MatrixView.LastSelected | javascripts/matrixview.js:290 | the loop returns the last flagged item, the evident meaning of `li.selected:last-child` |
| MatrixViews.MatrixView.DeselectAll | javascripts/matrixview.js:179-183 | the new state is `Selection.DeselectAll` of the old one: flags cleared, sequence emptied, `deselect` fired |
| MatrixViews.MatrixView.SelectOnly | javascripts/matrixview.js:231-236 | the new state is the plain select of the old: only el flagged and listed, `select` fired |
| MatrixViews.MatrixView.Toggle | javascripts/matrixview.js:219-230 | the new state is the meta select of the old: a flagged item is unflagged and its first slot nulled, otherwise it is appended and flagged |
| MatrixViews.MatrixView.Walk | javascripts/matrixview.js:208-215 | the guarded `each` loop flags and pushes each walked item up to and including the first marked one |
| MatrixViews.MatrixView.SelectRange | javascripts/matrixview.js:187-216 | the new state is the shift select of the old: walk from the first flagged item towards el |
| MatrixViews.MatrixView.Select | javascripts/matrixview.js:185-237 | shift wins over meta, meta over plain; the state is `Selection.Select` of the old |
| MatrixViews.MatrixView.Open | javascripts/matrixview.js:239-243 | deselect all, flag el without listing it, fire `open` |
| MatrixViews.MatrixView.Destroy | javascripts/matrixview.js:245-247 | only fires `delete` with the current sequence; nothing else changes |
| MatrixViews.MatrixView.SelectAll | javascripts/matrixview.js:249-256 | the loop flags and lists every item in document order after a deselect |
| MatrixViews.MatrixView.SelectFirst | javascripts/matrixview.js:258-264 | the state is `Selection.SelectFirst` of the old: item 0 alone, scrolled down to |
| MatrixViews.MatrixView.SelectLast | javascripts/matrixview.js:266-272 | the state is `Selection.SelectLast` of the old: item n-1 alone, scrolled down to |
| MatrixViews.MatrixView.MoveLeft | javascripts/matrixview.js:274-286 | the state is `Selection.MoveLeft` of the old |
| MatrixViews.MatrixView.MoveRight | javascripts/matrixview.js:288-302 | the state is `Selection.MoveRight` of the old |
| MatrixViews.MatrixView.SelectEachWithin | javascripts/matrixview.js:314-320 | the loop plain-selects each walked item that holds the point, and returns whether any did |
| MatrixViews.MatrixView.MoveUp | javascripts/matrixview.js:304-321 | the state is `Selection.MoveUp` of the old |
| MatrixViews.MatrixView.MoveDown | javascripts/matrixview.js:323-342 | the state is `Selection.MoveDown` of the old |
| MatrixViews.MatrixView.ExpandSelectionLeft | javascripts/matrixview.js:344-350 | the state is `Selection.ExpandLeft` of the old; ok is false exactly when there is no item before the first flagged one, where the source dereferences a missing element |
| MatrixViews.MatrixView.ExpandSelectionRight | javascripts/matrixview.js:352-358 | the state is `Selection.ExpandRight` of the old; ok is false exactly when nothing is flagged or the first flagged item is the last item |
| MatrixViews.MatrixView.ExpandSelectionUp | javascripts/matrixview.js:360-377 | the state is `Selection.ExpandUp` of the old; ok is false exactly when nothing is flagged |
| MatrixViews.MatrixView.ExpandSelectionDown | javascripts/matrixview.js:379-396 | the state is `Selection.ExpandDown` of the old; ok is false exactly when nothing is flagged |
| MatrixViews.MatrixView.MouseDown | javascripts/matrixview.js:95-118 | select the target (or deselect all without one), then start a drag at the pointer |
| MatrixViews.MatrixView.MouseUp | javascripts/matrixview.js:120-129 | stop dragging and fire `select` with the whole sequence |
| MatrixViews.MatrixView.MouseMove | javascripts/matrixview.js:131-177 | a drag move sets each flag to the corner test and sweeps the sequence; idle when not dragging |
| MatrixViews.MatrixView.SweepArea | javascripts/matrixview.js:160-176 | the loop over all items leaves the flags equal to the corner hits and returns the sweep of the old sequence |
| MatrixViews.MatrixView.Dblclick | javascripts/matrixview.js:86-93 | deselect all then open the target; nothing without a target |
| MatrixViews.MatrixView.Keypress | javascripts/matrixview.js:47-84 | the state is `Selection.Keypress` of the old, through the dispatch table; only the move keys need a non-empty list |
| Dom.GetAncestor | javascripts/matrixview.js:419-427 | the loop returns exactly `FirstMatch` of the path from the start node up to the root or `top` |
| Dom.FirstMatchIsFirst | javascripts/matrixview.js:421-425 | the result is the earliest matching node of the path, and nothing exactly when no node of it matches |
| Dom.AncestorIsNearest | javascripts/matrixview.js:419-427 | the returned node is on the path, at or above the start node and matches; no node between it and the start matches; nothing is returned only when nothing on the path matches |
| Dom.Path | javascripts/matrixview.js:420-424 | the tested nodes start at the start node and strictly decrease towards the root |
| Geometry.DragRect | javascripts/matrixview.js:135-151 | the rubber band's size is the absolute pointer offset; its corner is the smaller coordinate, relative to the container |
| Geometry.AreaSpansDrag | javascripts/matrixview.js:135-151 | the area covers exactly the box between drag origin and pointer, whichever way the drag went |
| Geometry.AreaSymmetric | javascripts/matrixview.js:135-151 | swapping origin and pointer gives the same area |
| Geometry.FlatAreaHitsNothing | javascripts/matrixview.js:166-167 | an area of zero width or height holds no corner of any item |
| Geometry.CornerHitTouches | javascripts/matrixview.js:166-167 | a corner hit implies that the item and the area overlap |
| Geometry.EnclosingItemMissed | javascripts/matrixview.js:166-167 | an item that encloses the whole area overlaps it but is not hit |
| Keys.Dispatch | javascripts/matrixview.js:47-84 | meta-A selects all; shift-arrow expands, arrow moves; Enter opens only with one entry; no command names a missing method |
| Keys.MetaASelectsAll | javascripts/matrixview.js:48-51 | corrected, meta with key code 65 or 97 selects all whatever else is held |
| Keys.MetaAIgnoredAsWritten | javascripts/matrixview.js:48-51 | as written, no key event selects all and meta-A does nothing; corrected, meta-A selects all |
| Keys.NoVerticalExpansionAsWritten | javascripts/matrixview.js:53-54 | as written, no key ever expands up or down |
| Keys.ShiftDownIgnoredAsWritten | javascripts/matrixview.js:53-54 | as written, shift-down does nothing; corrected, it expands down |
| Keys.TabMissingAsWritten | javascripts/matrixview.js:80-82 | as written, tab calls a method that does not exist; corrected, it moves right |
| Keys.DispatchDiffersOnlyThere | javascripts/matrixview.js:47-84 | apart from meta-A, shift-up/down and tab, the corrected table is the source's table |
| Views.FirstTrue | javascripts/matrixview.js:189 | the result is flagged and nothing before it is; none means nothing is flagged |
| Views.LastTrue | javascripts/matrixview.js:290 | the result is flagged and nothing after it is; none means nothing is flagged |
| Views.LastChildSelected | javascripts/matrixview.js:290 | the literal selector matches nothing when the selection-area div is the container's last child; otherwise only the last item, and only when it is flagged |
| Views.IndexOf | javascripts/matrixview.js:169 | `indexOf` returns the first slot holding the item, or -1 exactly when it is absent |
| Views.Through | javascripts/matrixview.js:208-215 | a `done`-guarded walk visits up to and including the first marked element, or all of them |
| Views.Before | javascripts/matrixview.js:206 | previous siblings are a-1 down to 0, nearest first |
| Views.After | javascripts/matrixview.js:204 | next siblings are a+1 up to n-1 |
| Selection.MoveRightAsWritten | javascripts/matrixview.js:288-302 | `moveRight` with the selector read literally, for either position of the selection-area div |
| SelectionFacts.WalkedClosedForm | javascripts/matrixview.js:208-215 | a walk flags and appends exactly the prefix through the first mark, and fires nothing |
| Selection.WalkToIsWalked | javascripts/matrixview.js:208-215 | the state after k rounds of the `each` loop is the walk over the first k items |
| SelectionFacts.WalkedScrolls | javascripts/matrixview.js:370-373 | a directed walk asks to scroll to every marked element, also after it stopped flagging |
| SelectionFacts.PlainSelectReplaces | javascripts/matrixview.js:231-236 | a plain select leaves exactly el selected in both views and fires `select` with el |
| SelectionFacts.MetaSelectAdds | javascripts/matrixview.js:227-230 | meta on an unflagged item appends and flags it |
| SelectionFacts.MetaSelectRemoves | javascripts/matrixview.js:221-224 | meta on a flagged item unflags it and nulls only its first slot, keeping the length |
| SelectionFacts.MetaSelectKeepsConsistent | javascripts/matrixview.js:219-230 | meta-select keeps the two views in agreement with no item listed twice |
| SelectionFacts.MetaSelectTwice | javascripts/matrixview.js:219-230 | meta twice restores the flags; the sequence keeps a hole (or moves the item to the end) |
| SelectionFacts.ShiftSelectOnAnchor | javascripts/matrixview.js:193 | shift on the first flagged item itself changes nothing and fires nothing |
| SelectionFacts.ShiftSelectWithoutAnchor | javascripts/matrixview.js:197-200 | shift with nothing flagged is a plain select |
| SelectionFacts.ShiftSelectForward | javascripts/matrixview.js:203-215 | shift after the anchor a flags and appends a+1..el in order; earlier entries stay |
| SelectionFacts.WalkToMatch | javascripts/matrixview.js:208-215 | a shift walk flags and appends the walked items up to and including the first one equal to the target, and asks for no scroll |
| SelectionFacts.ShiftSelectBackward | javascripts/matrixview.js:205-215 | shift before the anchor a flags and appends a-1 down to el |
| SelectionFacts.ShiftFromSingle | javascripts/matrixview.js:185-216 | click a then shift-click b flags exactly the items between a and b inclusive |
| SelectionFacts.ShiftSelectKeepsAgree | javascripts/matrixview.js:187-216 | shift-select keeps the two views in agreement |
| SelectionFacts.ShiftSelectBackwardConsistent | javascripts/matrixview.js:205-215 | shift towards the top also lists no item twice |
| SelectionFacts.ShiftSelectForwardDuplicates | javascripts/matrixview.js:203-215 | with items 0 and 1 selected, shift-click on 2 lists 1 a second time |
| SelectionFacts.ShiftSelectGrows | javascripts/matrixview.js:203-215 | shift-select with an anchor never clears a flag or drops an entry |
| SelectionFacts.DeselectAllClears | javascripts/matrixview.js:179-183 | no flag, empty sequence, one `deselect` |
| SelectionFacts.SelectAllSelectsEverything | javascripts/matrixview.js:249-256 | every item flagged and listed once in document order; `deselect` then `select` with that list |
| SelectionFacts.OpenDiverges | javascripts/matrixview.js:239-243 | after `open` only el is flagged and nothing is listed, so the two views disagree |
| SelectionFacts.DblclickOpens | javascripts/matrixview.js:86-93 | double-click fires `deselect` twice and then `open` |
| SelectionFacts.SelectFirstOnly | javascripts/matrixview.js:258-264 | item 0 alone, one scroll down, `deselect` then `select` twice |
| SelectionFacts.SelectLastOnly | javascripts/matrixview.js:266-272 | item n-1 alone, one scroll down, `deselect` then `select` twice |
| SelectionFacts.MoveLeftFrom | javascripts/matrixview.js:274-286 | from the first flagged item e, e-1 ends alone and is scrolled up to; at item 0 it stays on item 0 |
| SelectionFacts.MoveLeftWithoutSelection | javascripts/matrixview.js:277 | with nothing flagged, item 0 |
| SelectionFacts.MoveRightFrom | javascripts/matrixview.js:288-302 | from the last flagged item e, e+1 ends alone; at the end it stays on the last item |
| SelectionFacts.MoveRightWithoutSelection | javascripts/matrixview.js:290-292 | with nothing flagged, item 0 |
| SelectionFacts.RightThenLeft | javascripts/matrixview.js:274-302 | away from the end, right then left returns to the same single item |
| SelectionFacts.LeftThenRight | javascripts/matrixview.js:274-302 | away from the start, left then right returns to the same single item |
| SelectionFacts.SelectEachNoHit | javascripts/matrixview.js:314-320 | no item holding the point: nothing changes |
| SelectionFacts.SelectEachLastHit | javascripts/matrixview.js:314-320 | the last walked item holding the point ends selected alone and is the last scroll |
| SelectionFacts.MoveUpFinds | javascripts/matrixview.js:304-321 | moving up selects the earliest item holding the point one height above the first flagged item |
| SelectionFacts.MoveUpFindsNothing | javascripts/matrixview.js:313-320 | no item above: nothing changes |
| SelectionFacts.MoveUpFromTop | javascripts/matrixview.js:307-312 | from item 0 or with nothing flagged, item 0 |
| SelectionFacts.MoveDownFinds | javascripts/matrixview.js:323-342 | moving down selects the last item holding the point one and a half heights plus margin below the last flagged item |
| SelectionFacts.MoveDownFindsNothing | javascripts/matrixview.js:339 | no item below: the last item |
| SelectionFacts.MoveDownWithoutSelection | javascripts/matrixview.js:326 | with nothing flagged, item 0 |
| SelectionFacts.MoveLeftKeepsConsistent | javascripts/matrixview.js:274-286 | `moveLeft` always ends in a consistent view |
| SelectionFacts.MoveRightKeepsConsistent | javascripts/matrixview.js:288-302 | `moveRight` always ends in a consistent view |
| SelectionFacts.MoveUpKeepsConsistent | javascripts/matrixview.js:304-321 | `moveUp` keeps a consistent view consistent |
| SelectionFacts.MoveDownKeepsConsistent | javascripts/matrixview.js:323-342 | `moveDown` keeps a consistent view consistent |
| SelectionFacts.ExpandLeftFrom | javascripts/matrixview.js:344-350 | e-1 is flagged and appended, e is scrolled to and fired; at item 0 nothing changes |
| SelectionFacts.ExpandRightFrom | javascripts/matrixview.js:352-358 | starting from the FIRST flagged item, e+1 is flagged and appended even if already listed |
| SelectionFacts.ExpandWithoutSelection | javascripts/matrixview.js:344-396 | with nothing flagged every expansion throws before changing anything |
| SelectionFacts.ExpandRightDuplicates | javascripts/matrixview.js:352-358 | with items 0 and 1 selected, expanding right lists 1 twice |
| SelectionFacts.ExpandUpStops | javascripts/matrixview.js:360-377 | flags and appends e-1 down to the nearest item j above; the first new scroll is to j |
| SelectionFacts.ExpandUpRunsOut | javascripts/matrixview.js:360-377 | no item above: every earlier item is flagged and appended, no scroll |
| SelectionFacts.ExpandDownStops | javascripts/matrixview.js:379-396 | flags and appends e+1 up to the nearest item j below; the first new scroll is to j |
| SelectionFacts.ExpandDownRunsOut | javascripts/matrixview.js:379-396 | no item below: every later item is flagged and appended, no scroll |
| SelectionFacts.ExpansionOnlyAdds | javascripts/matrixview.js:344-396 | no expansion clears a flag or drops an entry |
| SelectionFacts.ExpandSidewaysOnlyAdds | javascripts/matrixview.js:344-358 | sideways expansion clears no flag and keeps every entry as a prefix |
| SelectionFacts.ExpandUpOnlyAdds | javascripts/matrixview.js:360-377 | upward expansion clears no flag and keeps every entry as a prefix |
| SelectionFacts.ExpandDownOnlyAdds | javascripts/matrixview.js:379-396 | downward expansion clears no flag and keeps every entry as a prefix |
| SelectionFacts.ExpandLeftKeepsConsistent | javascripts/matrixview.js:344-350 | expanding left keeps a consistent view consistent |
| SelectionFacts.ExpandUpKeepsConsistent | javascripts/matrixview.js:360-377 | expanding up keeps a consistent view consistent |
| SelectionFacts.ExpandDownKeepsConsistent | javascripts/matrixview.js:379-396 | expanding down keeps a consistent view consistent |
| SelectionFacts.KeypressKeepsConsistent | javascripts/matrixview.js:47-84 | every key command except Enter and shift-right keeps a consistent view consistent |
| SelectionFacts.KeypressOnEmptyList | javascripts/matrixview.js:47-84 | on an empty list Delete fires `delete` with nothing, meta-A fires `deselect` and an empty `select`, and every other non-move key changes nothing |
| SelectionFacts.NullFirstNoDup | javascripts/matrixview.js:173 | nulling the first slot of an item listed once removes it and keeps every other item |
| SelectionFacts.SweepHitsListed | javascripts/matrixview.js:166-171 | after a sweep every hit item is listed |
| SelectionFacts.SweepNoDup | javascripts/matrixview.js:166-175 | from a sequence with no repeats, a sweep lists no item twice and no missed item |
| SelectionFacts.SweepStepNoDup | javascripts/matrixview.js:166-175 | one item's step keeps a sequence without repeats, removes a missed item, and leaves every other item's presence alone |
| Selection.SweepToIsSweep | javascripts/matrixview.js:160-176 | the sequence after i rounds of the loop is the sweep over the first i items |
| SelectionFacts.SweepShape | javascripts/matrixview.js:160-176 | a sweep only nulls old slots and appends hit items |
| SelectionFacts.SweepIdempotent | javascripts/matrixview.js:160-176 | sweeping twice with the same hits is sweeping once |
| SelectionFacts.MouseMoveIdle | javascripts/matrixview.js:132 | `mousemove` while not dragging changes nothing |
| SelectionFacts.MouseMoveFlags | javascripts/matrixview.js:160-176 | after a drag move an item is flagged exactly when a corner lies in the area |
| SelectionFacts.MouseMoveSlots | javascripts/matrixview.js:160-176 | old entries are kept or nulled, never moved |
| SelectionFacts.MouseMoveConsistent | javascripts/matrixview.js:131-177 | from a sequence with no repeats, a drag move ends consistent |
| SelectionFacts.MouseMoveIdempotent | javascripts/matrixview.js:131-177 | repeating a move at the same point changes nothing more |
| SelectionFacts.MouseMoveLatestWins | javascripts/matrixview.js:131-177 | after two moves the selected set is that of the latest pointer position |
| SelectionFacts.DuplicateSurvivesMiss | javascripts/matrixview.js:173 | an item listed twice and then missed keeps one entry while being unflagged |
| SelectionFacts.MoveRightAsWrittenRestarts | javascripts/matrixview.js:290 | read literally, `moveRight` from item 0 of two restarts at item 0 wherever the div sits; corrected, it moves to item 1 |
| SelectionFacts.MoveRightAsWrittenWithArea | javascripts/matrixview.js:288-293 | with the div as the container's last child, literal `moveRight` always runs `selectFirst` |
| SelectionFacts.LastChildAgreesOnlyAtEnd | javascripts/matrixview.js:290 | the literal selector and the last flagged item agree exactly when the last item is flagged and the div is not the container's last child |

## Left out

- Event wiring (`events`, `bound`, lines 28-45) is left out. So are `event.stop()` and `preventDefault`. The handlers are called directly with the event's fields as parameters.
- The selection-area and container styling (`setStyle`, `display`) is left out. It draws but decides nothing; only the area's geometry is modelled.
- `scrollIntoView` (lines 402-413) adjusts `scrollTop` from live layout. It is modelled as a logged `ScrollRequest(item, direction)`.
- Browser geometry is an input: `getCoordinates`, `getPosition`, `offsetHeight` and the `margin-bottom` style arrive as integers. Floating point is not modelled, so `Math.floor(top + h + h/2)` is `top + h + h / 2` with Dafny's rounding-down division.
- The WebKit scrollbar exclusion in `mousedown` (lines 98-102) depends on the browser engine and live sizes, so it is not modelled.
- Dom.GetAncestor is modelled on its own over a sequence of parent indices. The handlers receive its outcome as the target index.
- The `each` callbacks use `this`, and `mousemove` uses `window.matrixView` and `$('selectionArea')`. These are read as this view and its area.
- `offset[0]` in `moveDown` is read as the x coordinate.
- `element.getAllNext.each` (line 385) calls an uncalled method; it is read as `getAllNext()`.
- `addClassName` and `hasClassName` are Prototype names; they are read as `addClass` and `hasClass`.
- `select` reads `shiftKey` and `metaKey`; these are taken as the shift and meta modifiers.
- Keys.MetaASelectsAll and Keys.Dispatch read the key code from `event.code`. The source reads `event.keyCode`, which a MooTools event does not carry; Keys.DispatchAsWritten and Keys.MetaAIgnoredAsWritten model that (see Findings).
- Keys.DispatchDiffersOnlyThere assumes the event is not meta-A: the two tables also differ there (Keys.MetaAIgnoredAsWritten).
- Prototype-only calls are read as their MooTools equivalents: `nextSiblings`/`previousSiblings` (lines 204, 206) as the following and preceding items, `this.element.down('li.selected')` (line 362) as the first flagged item, `$$('#matrixView li').last()` (line 267) as this view's last item, and `Position.within` and `Position.cumulativeOffset` with Prototype's meaning (the left and top edges in, the right and bottom edges out).
- MatrixViews.MatrixView.ExpandSelectionUp and SelectionFacts.ExpandUpStops read `itemOffset.x`/`.y` (lines 364, 371) as the item's left and top. `Position.cumulativeOffset` returns `[left, top]`, so as written both are undefined, no item ever holds the point and the walk always runs out as in SelectionFacts.ExpandUpRunsOut.
- The model assumes the selection-area div that `initialize` appends (lines 22-24) is not a sibling of the items. In the source it is a child of the same container: after the items when they exist before `initialize`, so `getNext`/`getAllNext` at the last item reach it. The literal `:last-child` selector is modelled with both placements (Views.LastChildSelected); the corrected handlers below are not. The div comes before the items only when they are added to the container after `initialize`, which the fixed item count below excludes; there `getPrevious`/`getAllPrevious` at item 0 would reach it, affecting MatrixViews.MatrixView.MoveLeft, MatrixViews.MatrixView.ExpandSelectionLeft, SelectionFacts.MoveLeftFrom and SelectionFacts.MoveUpFromTop.
- MatrixViews.MatrixView.MoveRight and SelectionFacts.MoveRightFrom: at the last item the model stays there (`selectLast`); with the div after the items, `getNext()` returns the div and the source selects it.
- MatrixViews.MatrixView.ExpandSelectionRight and SelectionFacts.ExpandRightFrom: at the last item the model changes nothing and returns `ok == false`; with the div after the items, the source flags the div and pushes it.
- MatrixViews.MatrixView.ExpandSelectionDown and SelectionFacts.ExpandDownRunsOut: a walk that runs out stops at the last item; with the div after the items, the source also flags and pushes the div.
- MatrixViews.MatrixView.constructor starts with every flag clear. `initialize` empties `selectedItems` but leaves any `selected` class already in the markup; such a pre-selected list is not modelled.
- The number of items is fixed for the life of a view (`flags` is one array). The source re-reads the container's `li` children on every call, so items added or removed later are not modelled.
- `destroy` hands the `delete` listener the live `selectedItems` array (Delete passes it at line 71 and `destroy` wraps it as `[elements]` at line 246), so later changes are visible to that listener. The model logs a copy (`DeleteRequested(sel)`); that aliasing is not modelled. `selectAll` and `mouseup` pass the array as the argument list (lines 255, 128), so their listeners receive the entries as they are at that moment, which `Selected(sel)` matches.
- Selection.SelectFirst, Selection.SelectLast and the moves require a non-empty list, and Selection.Keypress requires one only for the move keys (arrows, tab and shift-tab with an entry). On an empty list `selectFirst` passes a missing element to `select`, which empties `selectedItems` to `[null]` and then throws; that half-done path is not modelled. Every other key runs on an empty list (SelectionFacts.KeypressOnEmptyList).
- The expansions throw on a missing element before changing anything. On that path the model leaves the state unchanged and the class methods return `ok == false`.
- Enter with `selectedItems == [null]` runs `deselectAll` inside `open(null)` and then throws. The model keeps the deselect.
- SelectionFacts.MoveUpFinds: the move selects the FARTHEST item holding the target point, because the walk is nearest-first and every hit re-selects. A reading of the design as "the item directly above" would pick the nearest; the model follows the code.
- SelectionFacts.MouseMoveFlags: the drag test is "one of the item's corners lies in the area", not box intersection. The model follows the code; Geometry.EnclosingItemMissed shows an overlapping item that is not hit.
- SelectionFacts.ExpandUpStops and SelectionFacts.ExpandDownStops state only the FIRST new scroll request. Later hits also ask to scroll; SelectionFacts.WalkedScrolls states the full list.
- Overlapping drags are not modelled: there is a single pointer, and the MouseDown/MouseMove/MouseUp order is up to the caller.

## Findings

| source | as written | input that shows it | evidently intended | confidence | as-written member | corrected member |
|---|---|---|---|---|---|---|
| javascripts/matrixview.js:53-54 | shift-up/down does nothing: shift expansion is keyed on the names 'top' and 'bottom', which no key event carries (the arrows are 'up' and 'down'); only such a name would reach the missing `expandSelectionTop`/`expandSelectionBottom` | shift with key 'down' (or 'up') | shift-up/down call `expandSelectionUp`/`expandSelectionDown` | not executed | Keys.ShiftDownIgnoredAsWritten | Keys.Dispatch |
| javascripts/matrixview.js:80-82 | tab with a selection calls `this.moveRigth`, which does not exist | tab, with one item selected | tab moves right | not executed | Keys.TabMissingAsWritten | Keys.Dispatch |
| javascripts/matrixview.js:48 | meta-A is tested on `event.keyCode`, which the MooTools event wrapper does not carry (it has `code`), so the test never holds and meta-A does nothing | meta with key 'a' | meta-A selects all | not executed | Keys.MetaAIgnoredAsWritten | Keys.MetaASelectsAll |
| javascripts/matrixview.js:290 | `li.selected:last-child` matches only a flagged LAST item, and no item at all when the selection-area div appended at line 24 is the container's last child; so `moveRight` restarts at the first item unless the last item is selected with the div elsewhere (the same selector opens `moveDown` at line 325 and `expandSelectionDown` at line 381) | two items, item 0 selected, right arrow | start from the last selected item | not executed | SelectionFacts.MoveRightAsWrittenRestarts | SelectionFacts.MoveRightFrom |
