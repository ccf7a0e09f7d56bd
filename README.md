# zCanvas scene graph and collision queries in Dafny

zCanvas is a small 2D scene graph for the HTML canvas. A stage (`zCanvas`)
owns an ordered display list of sprites. A sprite (`zSprite`, `Sprite`) can
own children of its own, can be dragged with the mouse or by touch, and can
test itself for collisions against other sprites. Three generations of the
code live side by side, and each one is modelled as it is written. Where
the code evidently errs, the corrected behaviour is modelled beside it under
a name of its own (see "## Findings"):

- `src/zCanvas.js` with the distribution build's `Sprite`. These are modules
  `Scene`, `Pixels` and `Collision`.
  - The stage's display list, with its hand-kept `last`/`next` links.
  - The render scheduling state machine: `invalidate`, `render`,
    `setAnimatable` and `dispose`.
  - Event dispatch from the last child to the first.
  - The `checkCollision` strip scan.
- `src/ZSprite.js` (module `ZSprite`). The older sprite: its child list,
  position cascade, resizing, drag state machine and disposal.
- `src/zgor/ZCanvas.js` (module `LegacyStage`). The legacy stage, which
  rebuilds all sibling links after a removal and dispatches from the first
  child to the last.
- `dist/zcanvas.amd.js`:
  - `Sprite` (module `Scene`), with constraint rectangles, `setBounds`,
    sprite-sheet animation, interactive gating and recursive `dispose`;
  - `Collision` (module `Collision`), with pixel collision and the
    packed pixel arrays it compares;
  - `EventHandler` (module `EventHandler`), the listener registry.

Modelling choices:

- Coordinates are `real`. Timestamps are `int` milliseconds passed in as
  `now`.
- The platform's `requestAnimationFrame` is modelled as a count of
  outstanding frame requests (`scheduled`), next to the source's
  `_renderPending` flag. `RunFrame` is the platform firing one frame.
- The pixels a canvas would hand back from `getImageData` are inputs: a
  function from a region to its pixels, or the sequences of pixels.
- Sprite trees are described by a ghost set of sprites, `scene`, or by a
  ghost `Shape` for disposal. Recursion over a tree decreases that set.

In `src/zgor/ZCanvas.js`, `removeChild` scans the child array from its end
and splices the last occurrence of the child, not the first. The model
follows the code (`LegacyStage.WithoutLast`). For a list without
duplicates, the two are the same.

## Model

| member | source | states |
|---|---|---|
| Geometry.StrictOverlapIsOpenIntervals | src/ZSprite.js:370-382 | strict box overlap is open-interval overlap on both axes, hence symmetric |
| Geometry.ClosedOverlapIsClosedIntervals | dist/zcanvas.amd.js:1 | the dist overlap test meets closed intervals, is symmetric, is weaker than strict overlap, and accepts boxes that only touch |
| Geometry.Trunc | src/zCanvas.js:577 | truncation toward zero, with the bound on each side: how the canvas reads the `long` arguments of `getImageData`, and what `parseInt` gives for a plain-form number |
| Geometry.ParseIntOfNumber | dist/zcanvas.amd.js:1 | `parseInt` of a number: its truncation toward zero at 0 and between 1e-6 and 1e21 in magnitude; outside that, a single digit with the number's sign, read from the exponent form |
| Geometry.ParseIntOfNumberForms | dist/zcanvas.amd.js:1 | `123.9` reads 123, `±0.5` read 0, `5e-7` reads 5 and `-5e-7` reads -5, `1.5e21` reads 1 and `-2.5e22` reads -2 |
| Geometry.ClampToStage | src/ZSprite.js:701-719 | the keep-in-bounds clamp lands in `[min, 0]` and leaves values already inside alone |
| Geometry.EdgesOfOverlap | src/ZSprite.js:400-423 | against a strictly overlapping box, the left, above and below edges report contact and the right edge does not |
| Geometry.Overlap | dist/zcanvas.amd.js:1 | a point lies in the shared box iff it lies in both boxes; the box runs from the larger left and top to the smaller right and bottom |
| EventHandler.WithoutPairs | dist/zcanvas.amd.js:1 | after dropping a pair, the mapped pairs are the old ones minus that pair |
| EventHandler.AddRemoveRoundTrip | dist/zcanvas.amd.js:1 | removing a freshly added pair restores the earlier mappings |
| EventHandler.WithoutSingle | dist/zcanvas.amd.js:1 | with unique pairs, removing a pair is the splice at its index |
| EventHandler.Registry.constructor | dist/zcanvas.amd.js:1 | a new registry is empty, valid and not disposed |
| EventHandler.Registry.Has | dist/zcanvas.amd.js:1 | throws iff the registry is disposed (its list is `null`); otherwise true iff the (element, type) pair is mapped |
| EventHandler.Registry.Add | dist/zcanvas.amd.js:1 | throws iff disposed, changing nothing; otherwise adds iff the pair is new and the target can listen, appending exactly that mapping and keeping pairs unique |
| EventHandler.Registry.Remove | dist/zcanvas.amd.js:1 | throws iff disposed, changing nothing; otherwise removes iff the pair is mapped and the target can detach, leaving the old mappings without that pair |
| EventHandler.Registry.Dispose | dist/zcanvas.amd.js:1 | disposal empties the registry and marks it disposed; a second call leaves it as it is |
| Pixels.InternalCheck | src/zCanvas.js:575-614 | throws iff `getImageData` over the strip throws (a corner or extent outside 32 bits, or a width or height truncated to 0); otherwise the loop, bounded by the strip's area as given, answers the first-pixel verdict: false for a strip of negative area or with no channel asked for, else whether pixel 0 matches every channel asked for |
| Pixels.ResultCode | src/zCanvas.js:628-647 | the code is 0 to 3, 0 iff neither verdict, horizontal iff 1 or 3, vertical iff 2 or 3 |
| Pixels.ProbesAsWritten | src/zCanvas.js:616-626 | the strips as written: the left and upper strips abut the sprite box on their sides; the right and lower ones start one thickness past its edge, so they do not even touch it |
| Pixels.ProbesAround | src/zCanvas.js:541-558 | the strips as documented: each of the four lies on its side of the sprite box and abuts it, sharing the edge without overlapping |
| Pixels.ProbesAsWrittenSkipEdge | src/zCanvas.js:616-626 | the as-written right and lower strips miss the pixel column and row next to the sprite, which the touching strips cover |
| Pixels.ProbesAsWrittenMissRedEdge | src/zCanvas.js:616-647 | a red pixel right next to a sprite: the strips as written give code 0, the abutting strips code 1 |
| Pixels.StripCode | src/zCanvas.js:616-647 | the code is horizontal iff the left or right strip matches, vertical iff the lower or upper strip matches, and 0 with no channel asked for |
| Pixels.CheckPixel | src/zCanvas.js:585-614 | one turn of the loop: with no channel asked for nothing is settled; otherwise it settles whether the pixel is present and holds every channel value asked for |
| Pixels.StripsThrowOnZeroExtent | src/zCanvas.js:575-626 | with every corner and size within 32 bits, `checkCollision` throws iff a thickness or a side of the sprite truncates to 0 |
| Pixels.Word | dist/zcanvas.amd.js:1 | the unsigned pattern `a<<24 \| r<<16 \| g<<8 \| b` fits in 32 bits |
| Pixels.Pack | dist/zcanvas.amd.js:1 | the packed pixel is a signed 32-bit integer; it is zero iff all four bytes are zero and negative iff alpha is at least 128 |
| Pixels.UnpackPack | dist/zcanvas.amd.js:1 | packing loses nothing: every pixel is read back from its word |
| Collision.Extent | dist/zcanvas.amd.js:1 | the extent read is `parseInt` of the size, with 0 (and `-0`) read as 1: never 0; negative iff the size is -1 or less or just below 0 |
| Collision.ExtentValues | dist/zcanvas.amd.js:1 | the extent is the size truncated toward zero for plain-form sizes at least 1 in magnitude, 1 for plain-form sizes between -1 and 1, and a single digit, with the size's sign, for exponent forms |
| Collision.Cells | dist/zcanvas.amd.js:1 | the array length asked for is never 0; positive iff both extents or neither read negative, and at least 1 when neither does |
| Collision.Steps | dist/zcanvas.amd.js:1 | a loop `k < x` over a real bound runs exactly over the naturals below `x` |
| Collision.GetPixelArray | dist/zcanvas.amd.js:1 | throws iff the asked length is negative; otherwise the packed array has one word per pixel in row-major order, and a word is zero iff its pixel is blank |
| Collision.PixelCollision | dist/zcanvas.amd.js:1 | over the as-written intersection: false without one; throws iff its width reads negative (-1 or less, or just below 0); without `returnPoint`, true iff some pixel is set in both; with it, the first row-major point set in both, and none before it |
| Collision.PackGrid | dist/zcanvas.amd.js:1 | the loops over `d` rows of `a` pixels write one packed word per pixel, at its row-major index, and nothing else |
| Collision.CollideIn | dist/zcanvas.amd.js:1 | once the box is known: throws iff its width reads negative; without `returnPoint`, true iff some pixel is set in both; with it, the first row-major point set in both and none before it, or false when the grid has none |
| Collision.PixelCollisionShared | dist/zcanvas.amd.js:1 | the same test over the box the sprites really share: never throws, with the same answers |
| Collision.FirstPoint | dist/zcanvas.amd.js:1 | the row and column scan returns the first common index as `{x, y}`, or false when no index of the grid is common |
| Collision.AnyCommon | dist/zcanvas.amd.js:1 | the flat scan is true iff some index holds a non-blank pixel in both arrays |
| Collision.GetChildrenUnderPoint | dist/zcanvas.amd.js:1 | the result is the filter of the given list, strictly overlapping and collidable when asked, last to first |
| Collision.NegativeWidthWitness | dist/zcanvas.amd.js:1 | a size-10 and a size-2 sprite whose as-written intersection is -1 wide: `pixelCollision` throws, the shared-box test does not |
| Scene.Sprite.constructor | dist/zcanvas.amd.js:1 | a new sprite has the given box, no children, no links, no parent and every flag off |
| Scene.Sprite.SetDraggable | dist/zcanvas.amd.js:1 | sets draggable and keep-in-bounds; interactivity only grows |
| Scene.Sprite.SetWidth | dist/zcanvas.amd.js:1 | sets the width and keeps the horizontal centre, but only when the previous width was non-zero |
| Scene.Sprite.SetHeight | dist/zcanvas.amd.js:1 | sets the height and keeps the vertical centre, but only when the previous height was non-zero |
| Scene.Sprite.SetConstraint | dist/zcanvas.amd.js:1 | stores the constraint, turns keep-in-bounds on, and raises left and top to at least the constraint's |
| Scene.Sprite.CollidesWith | dist/zcanvas.amd.js:1 | false against itself; otherwise closed-box overlap, so touching sprites collide |
| Scene.Sprite.GetIntersectionAsWritten | dist/zcanvas.amd.js:1 | null iff no collision; otherwise max left and top, with the right edge at `min(a.left+a.width, b.width+b.height)` as written and a height that is never negative for non-negative sizes |
| Scene.Sprite.GetIntersection | dist/zcanvas.amd.js:1 | null iff no collision; otherwise exactly the shared box, which lies inside both sprites |
| Scene.Sprite.CollidesWithEdge | dist/zcanvas.amd.js:1 | false against itself; otherwise the one-sided edge test, throwing for an edge outside `[0, 3]` |
| Scene.Sprite.SetSheet | dist/zcanvas.amd.js:1 | an empty sheet throws; otherwise the first animation starts in range |
| Scene.Sprite.SwitchAnimation | dist/zcanvas.amd.js:1 | throws without an animation or for an index off the sheet; otherwise starts that group at column `col`, `maxCol = col + amount - 1`, counter 0 |
| Scene.Sprite.UpdateAnimation | dist/zcanvas.amd.js:1 | one tick of the counter and column, wrapping to the group start and reporting `onComplete`; the column stays in range |
| Scene.Started | dist/zcanvas.amd.js:1 | a started animation begins at the group column with counter 0 and spans `amount` columns |
| Scene.TickInRange | dist/zcanvas.amd.js:1 | a tick keeps an animation in range |
| Scene.Sprite.GetChildAt | dist/zcanvas.amd.js:1 | the child at a valid index, null otherwise |
| Scene.Sprite.Contains | dist/zcanvas.amd.js:1 | true iff the sprite is a direct child |
| Scene.Sprite.SetX | dist/zcanvas.amd.js:1 | left becomes `x + constraint.left`; every sprite the cascade reaches moves by `x - oldLeft` plus its own constraint offset; the others stay |
| Scene.Sprite.SetY | dist/zcanvas.amd.js:1 | the same cascade on `top` |
| Scene.Sprite.SetBounds | dist/zcanvas.amd.js:1 | throws iff there is neither constraint nor canvas; otherwise resizes and places x and y by the as-written fit: within a constraint fitted to it, without one NaN (`nan`) under keep-in-bounds and unshifted otherwise; the move cascades, and nothing outside the moved subtree changes |
| Scene.Sprite.SetBoundsOnStage | dist/zcanvas.amd.js:1 | `setBounds` fitted to the stage when there is no constraint: every coordinate placed by `Fit`, with the same cascade |
| Scene.Fit | dist/zcanvas.amd.js:1 | with keep-in-bounds, clamps to `[min(0, area - extent), area - extent]`; without it, adds half the extent past the container edge |
| Scene.FitAsWrittenLosesStage | dist/zcanvas.amd.js:1 | for all inputs: within a constraint the as-written fit is `Fit`; without one, keep-in-bounds gives NaN, and past the stage edge the as-written position is not shifted where `Fit` shifts it |
| Scene.Sprite.HandleMove | dist/zcanvas.amd.js:1 | throws iff there is neither constraint nor canvas; otherwise `setBounds` at the drag start offset plus the pointer travel, with its NaN outcome and its as-written fit, and cascades |
| Scene.DistStep | dist/zcanvas.amd.js:1 | the dist drag machine: press inside starts, release ends with a click under 250 ms, other events move only a draggable sprite |
| Scene.Sprite.HandleInteraction | dist/zcanvas.amd.js:1 | a non-interactive sprite and one whose child handled the event keep their own state; otherwise the drag step gives the result, the hooks and the new drag state, a move placed by the as-written fit |
| Scene.Sprite.OwnStep | dist/zcanvas.amd.js:1 | a sprite's own drag step, with hover tracking, as the contract of `HandleInteraction` states it |
| Scene.Sprite.AddChild | dist/zcanvas.amd.js:1 | appends the child after the old last, sets parent and canvas, invalidates the canvas and keeps the tree well formed |
| Scene.Sprite.RemoveChild | dist/zcanvas.amd.js:1 | splices the first occurrence, patches the neighbours' links, clears the child's links, parent and canvas, and keeps the list's links valid |
| Scene.Sprite.RemoveChildAt | dist/zcanvas.amd.js:1 | throws for an index off the list; otherwise removes that child as `RemoveChild` does |
| Scene.Sprite.Dispose | dist/zcanvas.amd.js:1 | one-shot: a second call changes nothing; the first leaves the parent, disposes the subtree and leaves the parent's list valid |
| Scene.StageDimensions | src/zCanvas.js:87-91 | a missing dimension defaults to 300; construction succeeds iff both resolved dimensions are positive |
| Scene.Stage.constructor | src/zCanvas.js:60-143 | a new stage has the given size and flags, no children, and exactly one frame outstanding |
| Scene.Stage.Invalidate | src/zCanvas.js:343-349 | requests a frame only when not animating and none is pending; outstanding frames stay at most one |
| Scene.Throttled | src/zCanvas.js:755-759 | the new last-render time is `now - (delta mod interval)`: a whole number of intervals past the old one, within one interval of `now` |
| Scene.Stage.Render | src/zCanvas.js:747-807 | draws the children in list order iff the interval has passed; clears pending and re-requests iff animating and not disposed |
| Scene.Stage.RunFrame | src/zCanvas.js:747-807 | a frame firing keeps at most one frame outstanding |
| Scene.Stage.DrawOrder | src/zCanvas.js:785-797 | walking the `next` links from the first child visits exactly the child list in order |
| Scene.Stage.SetAnimatableAsWritten | src/zCanvas.js:514-521 | switching on renders at once, even with a frame already pending |
| Scene.TwoFramesWitness | src/zCanvas.js:514-521 | switching a fresh still stage on as written leaves two frames outstanding |
| Scene.Stage.SetAnimatable | src/zCanvas.js:514-521 | switching on renders only when no frame is pending, so at most one frame stays outstanding |
| Scene.OneFrameWitness | src/zCanvas.js:514-521 | switching a fresh still stage on leaves one outstanding frame |
| Scene.Stage.Dispose | src/zCanvas.js:653-671 | one-shot; the first call stops animation, disposes every subtree and empties the list |
| Scene.Stage.GetChildAt | src/zCanvas.js:283-286 | the child at a valid index, null otherwise |
| Scene.Stage.Contains | src/zCanvas.js:326-329 | true iff the sprite is on the stage's list |
| Scene.Stage.AddChild | src/zCanvas.js:218-235 | appends after the old last with `next` null, sets parent and canvas, invalidates, returns the stage, keeps the scene staged |
| Scene.Stage.RemoveChild | src/zCanvas.js:243-273 | splices the first occurrence, patches the neighbours' links, clears the child, invalidates and keeps the list valid |
| Scene.Stage.RemoveChildAt | src/zCanvas.js:295-298 | throws for an index off the list; otherwise removes that child as `RemoveChild` does |
| Scene.Stage.GetChildrenUnderPoint | src/zCanvas.js:367-389 | the children strictly overlapping the query box, collidable ones when asked, in reverse list order |
| Scene.UnderPointMembers | src/zCanvas.js:367-389 | a sprite is in the result iff it is a child that hits the query |
| Scene.UnderPointReversed | src/zCanvas.js:367-389 | the query over a joined list is the query over the tail followed by the query over the head |
| Scene.Stage.HandleInteraction | src/zCanvas.js:679-737 | offers the event last to first; mouse stops at the first handler, touch visits all; a throw propagates; otherwise the stage invalidates |
| Scene.Stage.Offer | src/zCanvas.js:685-736 | the dispatch loop along the `last` links with the same order and stopping rule |
| Scene.Stage.CheckCollision | src/zCanvas.js:560-648 | with the falsy-argument defaults (0 or absent) and the strips as written: throws iff a strip it reads makes `getImageData` throw (the left and lower ones always, the right one only when the left found nothing, the upper one only when the lower found nothing); otherwise the code is the strip code of the four strips |
| Scene.IndexOf | src/zCanvas.js:243-273 | `indexOf`: -1 iff absent, otherwise the first position of the sprite |
| Scene.RemoveFirst | src/zCanvas.js:243-273 | removing the first occurrence shortens the list by one iff the sprite is present |
| Scene.RemoveFirstMultiset | src/zCanvas.js:243-273 | that removal drops one copy of the sprite and is the splice at its first index |
| Scene.IntersectionWidthWitness | dist/zcanvas.amd.js:1 | concrete sprites where the as-written width is -1 while the shared box is 2 wide |
| ZSprite.Sprite.constructor | src/ZSprite.js:53-70 | a new sprite has the given box, no children, no links, no parent and every flag off |
| ZSprite.Sprite.CollidesWith | src/ZSprite.js:370-382 | false against itself; otherwise true iff the boxes strictly overlap |
| ZSprite.CollidesWithSymmetric | src/ZSprite.js:370-382 | collision is symmetric |
| ZSprite.Sprite.CollidesWithEdge | src/ZSprite.js:400-423 | false against itself; otherwise the one-sided edge test |
| ZSprite.Sprite.Contains | src/ZSprite.js:623-635 | true iff the sprite is a direct child |
| ZSprite.Sprite.GetChildAt | src/ZSprite.js:591-594 | the child at a valid index, null otherwise |
| ZSprite.Sprite.AddChild | src/ZSprite.js:521-538 | appends after the old last, links both ways, sets parent and canvas, returns the sprite, keeps the tree well formed |
| ZSprite.Sprite.RemoveChildAsWritten | src/ZSprite.js:546-582 | removes every occurrence and relinks the rest, but leaves the removed child's links as they were |
| ZSprite.StaleLinkWitness | src/ZSprite.js:521-582 | a child removed as written and added to an empty list keeps a stale `last`, so that list's links are broken |
| ZSprite.Sprite.RemoveChild | src/ZSprite.js:546-582 | removes every occurrence, relinks the rest in array order, and clears the child's links, parent and canvas |
| ZSprite.ClearedLinkWitness | src/ZSprite.js:521-582 | with the links cleared on removal, the same sequence leaves a valid list |
| ZSprite.AddRemoveRestores | src/ZSprite.js:521-582 | removing a freshly added child restores the earlier list |
| ZSprite.WithoutMultiset | src/ZSprite.js:546-582 | removal drops every copy of the child and nothing else |
| ZSprite.WithoutDistinct | src/ZSprite.js:546-582 | removal keeps a list without duplicates |
| ZSprite.Sprite.RemoveChildAt | src/ZSprite.js:602-605 | throws for an index off the list; otherwise removes that child |
| ZSprite.Recentred | src/ZSprite.js:454-465 | resizing keeps the centre: `left + newW/2 == oldLeft + oldW/2`; a zero size leaves the position |
| ZSprite.Sprite.UpdateImage | src/ZSprite.js:437-488 | takes the non-zero new sizes, re-centres, and with keep-in-bounds clamps to the canvas, throwing without one |
| ZSprite.MoveTarget | src/ZSprite.js:682-738 | the drag target: clamped to `[-(w - stageW), 0]` with keep-in-bounds, otherwise the legacy half-extent shifts |
| ZSprite.Sprite.HandleMove | src/ZSprite.js:682-738 | throws without a canvas; otherwise moves to the drag target and cascades the move to the subtree |
| ZSprite.DragStep | src/ZSprite.js:787-839 | press inside starts a drag, release ends it with a click under 250 ms, any other event while dragging moves |
| ZSprite.Sprite.HandleInteraction | src/ZSprite.js:756-841 | false when not draggable; a handling child answers first; otherwise the drag step gives the result, hooks and new drag state |
| ZSprite.Sprite.SetX | src/ZSprite.js:220-240 | left becomes `x`; every non-dragging descendant the cascade reaches moves by `x - oldLeft`; the others stay |
| ZSprite.Sprite.SetY | src/ZSprite.js:257-277 | the same cascade on `top` |
| ZSprite.Sprite.Dispose | src/ZSprite.js:849-868 | one-shot: a second call changes nothing; the first takes the sprite out of its parent's list and empties its own, and every child not disposed before ends disposed, without a parent and with cleared links; sprites outside the subtree keep their parent and flag, and parentless ones their links |
| ZSprite.Sprite.DisposeInternal | src/ZSprite.js:849-868 | leaves the parent through the as-written `removeChild`, keeping this sprite's stale links, then disposes the children with the same promises for each child, keeping the hosted trees well formed |
| ZSprite.Sprite.LeaveParent | src/ZSprite.js:853-856 | the parent's list loses every copy of the sprite, which keeps its stale links; no flag changes |
| ZSprite.Sprite.DisposeChildren | src/ZSprite.js:858-867 | the loop from the last child to the first: throws when an index falls off the shrinking list, otherwise every child not disposed before ends disposed, parentless and with cleared links, and the list is empty |
| ZSprite.Sprite.DisposeChild | src/ZSprite.js:863-865 | one turn: the child ends disposed, leaves the list iff it was not disposed before, and unless it threw gets cleared links; its siblings keep their flags |
| ZSprite.RemovedSpriteMoves | src/ZSprite.js:220-240 | a sprite taken out by the as-written `removeChild` keeps its stale `last`, yet `setX` moves it |
| LegacyStage.Stage.constructor | src/zgor/ZCanvas.js:39-64 | a new stage has the given size, interval `1000 / fps` with 60 by default, and an empty valid list |
| LegacyStage.Stage.AddChild | src/zgor/ZCanvas.js:93-114 | appends after the old last, links both ways, sets parent and stage, keeps the links valid |
| LegacyStage.Stage.RemoveChild | src/zgor/ZCanvas.js:120-160 | disposes the child, splices its last occurrence, clears parent and stage, and rebuilds every link in array order |
| LegacyStage.Stage.Relink | src/zgor/ZCanvas.js:138-155 | the rebuild loop leaves the links matching array order |
| LegacyStage.WithoutLastAt | src/zgor/ZCanvas.js:120-160 | removal is the splice at the last index holding the child |
| LegacyStage.WithoutLastMembers | src/zgor/ZCanvas.js:120-160 | removal keeps a distinct list distinct and keeps exactly the other members |
| LegacyStage.AddRemoveRestores | src/zgor/ZCanvas.js:93-160 | removing a freshly added child restores the earlier list |
| LegacyStage.Stage.GetChildAt | src/zgor/ZCanvas.js:207-210 | the child at a valid index, absent otherwise |
| LegacyStage.Stage.RemoveChildAt | src/zgor/ZCanvas.js:218-221 | throws for an index off the list; otherwise removes that child |
| LegacyStage.Stage.Contains | src/zgor/ZCanvas.js:239-251 | true iff the sprite occurs in the child array |
| LegacyStage.Stage.Update | src/zgor/ZCanvas.js:290-302 | a still stage draws now or delays one frame; an animated one does nothing |
| LegacyStage.Stage.SetDimensions | src/zgor/ZCanvas.js:311-317 | stores the size and asks a still stage for a delayed redraw |
| LegacyStage.Stage.Render | src/zgor/ZCanvas.js:414-442 | draws the children in link order and schedules the next tick iff not disposed and animating |
| LegacyStage.Stage.HandleInteraction | src/zgor/ZCanvas.js:348-405 | offers the event first to last; mouse stops at the first handler, touch visits all; a still stage redraws |
| LegacyStage.Stage.DisposeInternal | src/zgor/ZCanvas.js:325-340 | disposes every child from last to first and empties the list |
| LegacyStage.Reversed | src/zgor/ZCanvas.js:325-340 | the reversed list holds the same sprites in reverse order |

## Left out

- DOM and canvas plumbing is not modelled: element creation, contexts, the HDPI ratio, backing-store sizes, smoothing, listener wiring, `preventDefault`/`stopPropagation`, and the `offsetParent` walk of `getCoordinate`. Event coordinates are parameters.
- Drawing is not modelled: `draw`, `drawImage`, `fillRect`, `clearRect`, the update hooks and `getImageData`. Render records the children it would draw, in order. Pixels are inputs.
- Image loading (`createImageFromSource`, `Loader`) and the prototype-inheritance helper `OOP.extend` are not modelled. Of `Disposable`, only the one-shot guard of `dispose` is modelled, in each `Dispose`.
- `requestAnimationFrame`, `cancelAnimationFrame`, `setTimeout` and `Date.now` are not modelled. They become the `scheduled` count, the `renderPending` flag and the `now` parameter; a cancelled frame only lowers the count.
- Scene.Stage.constructor: the interval is a positive integer, not the floating-point `1000 / fps`.
- LegacyStage.Stage.constructor: `frameRate` is a real; a missing rate is the value 0, which takes the default 60.
- Floating-point NaN and infinities are not modelled. Every coordinate is a real number; the one NaN an operation is known to produce is reported as an outcome (see Scene.Sprite.SetBounds).
- `zgor.ZSprite` is not part of this model. LegacyStage.Sprite keeps only the fields the legacy stage touches. The legacy stage records the sprites it disposes (`disposals`) instead of running their `dispose`.
- LegacyStage.Stage.AddChild: requires that an appended sprite is not already listed and, for an empty list, has no stale links. Otherwise the source's draw walk along `next` need not end.
- LegacyStage.Stage.Render: requires the links to match the array, so that the walk along `next` ends. The same holds for Update, SetDimensions and HandleInteraction.
- LegacyStage.Stage.HandleInteraction: each child's answer is the parameter `handles`; what the child does with the event is not modelled.
- Collision.PixelCollision: requires non-negative sprite sizes. With a negative size the shared box can have a negative height, and the case it then allows is not modelled (see GetPixelArray).
- Collision.GetPixelArray: requires that not both extents read negative. There `new Array` gets a positive length but the loops never run, so the array would hold only holes (`undefined`).
- Collision.GetPixelArray: `getImageData` here throws only for an offset or an extent that does not fit 32 bits (`parseInt` never leaves a zero extent); that `TypeError` is not modelled, and with it the `parseInt` of an array length of 1e21 or more. The same holds for PixelCollision and PixelCollisionShared, whose "never throws" assumes sprites and offsets within 32 bits.
- Geometry.ParseIntOfNumber: the exponent form is taken to show the digits of the real number itself. A double whose shortest form rounds them differently (a value just below 2e-7 printed as `2e-7`) is not modelled.
- Scene.Sprite.SetBounds: a NaN coordinate (keep-in-bounds without a constraint) is reported as `nan`. The sprite and its moved subtree then hold NaN in the source; the model promises nothing about their positions. The same holds for HandleMove, HandleInteraction and OwnStep.
- Scene.Sprite.Dispose: the second-call no-op is stated only for the sprite itself and its parent, not for the whole subtree. It requires that no sprite of the subtree was disposed before.
- Scene.Stage.Dispose: requires that no child was disposed before and that the children's subtrees are described by shapes.
- ZSprite.Sprite.Dispose: requires the hosted trees to be well formed. Its promise about disposal, parent and links is stated for the direct children; each child's own `Dispose` makes it for the next level, but the contract does not restate it for the whole subtree. A child already disposed but listed again keeps the links the parent's relinking gives it.
- The update step each sprite runs while drawn (`update(now)`, the external update handler) is not modelled.
- Scene.Stage.HandleInteraction: each child's dispatch is the dist sprite's `HandleInteraction`. The stage's contract states the order and stopping rule, not what each child did.

## Findings

| source | as written | input that shows it | evidently intended | confidence | as-written member | corrected member |
|---|---|---|---|---|---|---|
| src/ZSprite.js:546-582 | `removeChild` relinks the remaining children but leaves the removed child's `last`/`next`; `addChild` to an empty list keeps them | `p.addChild(a); p.addChild(b); p.removeChild(b); q.addChild(b)`: `b.last` is still `a` | clear the removed child's links | not executed | ZSprite.StaleLinkWitness | ZSprite.Sprite.RemoveChild |
| dist/zcanvas.amd.js:1 | `getIntersection` takes the right edge from `b.width + b.height` instead of `b.left + b.width` | a = (0, 0, 10, 10), b = (5, 5, 2, 2): width -1, so `pixelCollision` throws a `RangeError` | width 2, the shared box | not executed | Scene.IntersectionWidthWitness | Scene.Sprite.GetIntersection |
| dist/zcanvas.amd.js:1 | `setBounds` and drag moves read `this.canvas.width`, which a canvas does not define | a sprite at x 500, 100 wide, on a 300 wide stage: NaN instead of 200 with keep-in-bounds, 500 instead of 550 without | use the canvas's stage width | not executed | Scene.FitAsWrittenLosesStage | Scene.Sprite.SetBoundsOnStage |
| src/zCanvas.js:514-521 | `setAnimatable(true)` renders at once even when a frame is already pending, so two render loops run | a new still stage (one frame pending), then `setAnimatable(true)` | render only when no frame is pending | not executed | Scene.TwoFramesWitness | Scene.Stage.SetAnimatable |
| src/zCanvas.js:616-626 | the right and lower strips start one thickness past the sprite's edge | strips 1 pixel thick: the column `x + spriteWidth` and the row `y + spriteHeight` are never read | strips that touch the sprite | not executed | Pixels.ProbesAsWrittenSkipEdge | Pixels.ProbesAround |
