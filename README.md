# PageTreeNode tile cache, modelled in Dafny

This project models `PageTreeNode` from the VuDroid document viewer. A
`PageTreeNode` is one tile of the quadtree cache that shows a document page.
Each node owns a slice of the page in normalised coordinates, a zoom threshold
at which it subdivides into four children, a strong bitmap reference, a soft
(reclaimable) bitmap reference, a "decoding now" flag and a memo of its target
rectangle on screen. The recursive traversals look at the current zoom and
viewport and then do the following:

- spawn or prune children;
- start or cancel decodes;
- drop bitmaps the page no longer shows.

The model is split into these files:

- `geometry.dfy` (module `Geometry`): rectangles over `real`, the
  scale-then-translate mapping behind `evaluatePageSliceBounds` and
  `getTargetRect`, strict-overlap intersection, and the four quadrants.
- `tiles.dfy` (module `Tiles`): the node as a value (`Node`), the pure
  queries, and the specification functions. These functions describe what
  each mutating operation leaves behind: `AfterSetBitmap`, `Recycled`,
  `PrunedChildren`, `InvalidatedChildren`, `ClearedTargets`. The module also
  defines predicates over whole subtrees: `Released`, `Quiet`, `Served`,
  `NoneDecoding`. Two predicates compare the decode service's requests
  before and after an operation:
  - `Withdrawn`: requests are only withdrawn, and every remaining one keeps
    its arguments;
  - `Refreshed`: a request held before and after keeps its arguments, and a
    new one is for a node below the treated one and asks for the current
    zoom and the slice its path names (`PathSlice`).
- `tile_facts.dfy` (module `TileFacts`): lemmas about those functions.
- `sweeps.dfy` (module `Sweeps`): the four recursive traversals as
  functions on node values: `AfterStopDecoding`,
  `AfterRemoveInvisibleBitmaps`, `AfterStopDecodingInvisible` and
  `AfterStartDecoding`. `Restores` counts the redraws of
  `startDecodingVisibleNodes`. The lemmas of the module say what each
  traversal guarantees and what it keeps.
- `page_tree.dfy` (module `TileCache`): class `PageTree`.
  - Its one field for the tree is `root`.
  - Its other fields stand for the collaborators a node updates:
    - the document view's progress counter;
    - the number of `postInvalidate()` redraw requests;
    - the bitmaps passed to `recycle()`;
    - the decode service's outstanding requests;
    - the number of `page.setAspectRatio` calls.
  - Each state-changing method of `PageTreeNode` is a method of this class.
    The traversals and the methods that touch the decode service take a
    node value and its path. The others (`setBitmap`, `setDecodingNow`,
    `getTargetRect`, `isVisible`, `restoreBitmapReference`,
    `invalidateNodeBounds`) take the node value without a path. Each returns the node
    as the Java method leaves it and updates those fields in place.
  - The loops of `isHiddenByChildren` and `childrenContainBitmaps`, and the
    `containsBitmaps` that calls the latter, are methods that take a node
    value and change nothing.
  - `getBitmap`, `thresholdHit` and `isVisibleAndNotHiddenByChildren` are
    functions of `Tiles`; `isDecodingNow` is the field `decoding`. `draw` is
    left out.
  - The class invariant `Valid()` says four things:
    - the tree is well formed;
    - the progress counter equals its base plus the number of decoding nodes;
    - the decode service holds exactly one request per decoding node;
    - each request asks for the slice its path names, which is the slice
      stored on that node (`RequestSlices`).

A node's identity is its path of child indexes from the root. The decode
service's requests are keyed by this path. The soft reference is its own
field, `soft`. The garbage collector is the explicit operation `Reclaim`.

The traversals receive the zoom, the view rectangle and the page bounds as a
`View` value.

## Model

| member | source | states |
|---|---|---|
| Geometry.MapRect | src/main/java/org/vudroid/core/PageTreeNode.java:35-40 | the mapped rectangle is sorted; for sorted inputs it is the corner-wise image `Scaled`, in which each edge is scaled by the frame's width or height and then shifted by the frame's left or top edge |
| Geometry.QuadrantsPartition | src/main/java/org/vudroid/core/PageTreeNode.java:233-238 | a point lies in the parent slice exactly when it lies in one of the four quadrant slices, and it never lies in two of them |
| Geometry.MapRectCompose | src/main/java/org/vudroid/core/PageTreeNode.java:29-41 | mapping through a child slice and then the parent slice equals mapping through the composed slice |
| Geometry.ScaledCompose | src/main/java/org/vudroid/core/PageTreeNode.java:29-41 | the corner-wise images compose: scaling through a child slice and then the parent slice is scaling through the child slice's image, for any rectangles |
| Tiles.EvaluatePageSliceBounds | src/main/java/org/vudroid/core/PageTreeNode.java:29-41 | a root keeps its local slice; a child's slice is its local slice scaled by the parent slice's size and translated by the parent's top-left corner |
| Tiles.NewNode | src/main/java/org/vudroid/core/PageTreeNode.java:21-27 | a new node with a positive threshold is well formed and not decoding |
| Tiles.Spawn | src/main/java/org/vudroid/core/PageTreeNode.java:232-239 | exactly four children; child k owns quadrant k of the parent slice, mapped through it, with twice the parent's threshold, and is an empty leaf that is not decoding and has no memo |
| TileFacts.SpawnTiles | src/main/java/org/vudroid/core/PageTreeNode.java:232-239 | the slices of the four spawned children tile the parent's slice, with no gap and no overlap |
| TileFacts.SpawnFacts | src/main/java/org/vudroid/core/PageTreeNode.java:230-240 | spawning keeps the node well formed; every new child owns its quadrant, has doubled threshold, is not decoding and contains no bitmap, so no request or progress is added |
| TileFacts.TargetRectsNest | src/main/java/org/vudroid/core/PageTreeNode.java:125-136 | with no memos, a child's target rectangle is quadrant k of its parent's target rectangle |
| TileCache.PageTree.constructor | src/main/java/org/vudroid/core/PageTreeNode.java:21-27 | the root is an empty node over its local slice; the progress counter starts at the given `progress0`, and the redraw count, the recycled log, the requests and the aspect-ratio count start empty |
| TileCache.PageTree.SetBitmap | src/main/java/org/vudroid/core/PageTreeNode.java:43-62 | the node becomes `AfterSetBitmap(n, b)`. The sentinel or the held instance changes no counter. A new bitmap recycles the previous strong bitmap once, if there was one, and adds one redraw. Null recycles nothing and adds no redraw |
| TileFacts.SetBitmapNoOp | src/main/java/org/vudroid/core/PageTreeNode.java:45-49 | the -1 x -1 bitmap and the instance already held leave the node unchanged |
| TileFacts.AfterSetBitmapFacts | src/main/java/org/vudroid/core/PageTreeNode.java:51-67 | a usable bitmap becomes both the strong bitmap and what `getBitmap()` yields. Null clears only the strong field and leaves `getBitmap()` as before. Setting twice equals setting once. Decoding and children are kept, and so is well-formedness |
| TileCache.PageTree.SetDecodingNow | src/main/java/org/vudroid/core/PageTreeNode.java:74-87 | the flag takes the new value; the counter moves by +1 on false to true, by -1 on true to false, and otherwise stays |
| TileCache.PageTree.PendingMatchesProgress | src/main/java/org/vudroid/core/PageTreeNode.java:74-87 | in a valid page the counter equals its base plus the number of outstanding requests, so it never drops below its base |
| TileFacts.PathsCount | src/main/java/org/vudroid/core/PageTreeNode.java:89-107 | a subtree has exactly as many decoding paths as decoding nodes, so each decoding node has its own request |
| TileFacts.PathsSeqDisjoint | src/main/java/org/vudroid/core/PageTreeNode.java:89-107 | the decoding paths of a child and those of the children before it are disjoint, since they start with different indexes |
| TileCache.PageTree.DecodePageTreeNode | src/main/java/org/vudroid/core/PageTreeNode.java:89-107 | a decoding node is left alone and nothing is submitted. Otherwise the node is flagged, it had no request before, and exactly one request for its slice at the current zoom is added |
| TileCache.PageTree.CompleteNode | src/main/java/org/vudroid/core/PageTreeNode.java:98-105 | the node becomes the refresh of `AfterSetBitmap(n, result)` with the flag cleared; its request is withdrawn and no other changes; a new usable bitmap adds one redraw and recycles the previous strong bitmap if there was one, and any other result changes neither; one aspect-ratio update is counted |
| TileCache.PageTree.DecodeComplete | src/main/java/org/vudroid/core/PageTreeNode.java:96-105 | A result for a path with a request replaces only the subtree at that path, by the callback's outcome on that node. The request is withdrawn, the others keep their arguments, and redraws and recycled bitmaps follow `setBitmap`. A result for a path without a request changes nothing. The page stays valid |
| TileCache.PageTree.GetTargetRect | src/main/java/org/vudroid/core/PageTreeNode.java:125-136 | an existing memo is returned unchanged; otherwise the slice mapped through the page bounds is returned and becomes the memo |
| TileCache.PageTree.CheckVisible | src/main/java/org/vudroid/core/PageTreeNode.java:161-164 | the answer is whether the target rectangle strictly overlaps the view rectangle, and the memo is filled |
| TileCache.PageTree.StopDecoding | src/main/java/org/vudroid/core/PageTreeNode.java:138-149 | the subtree becomes `AfterStopDecoding(n, v)`; the subtree's requests are withdrawn, the others keep their arguments, the counter drops once per withdrawn request, and nothing is recycled or redrawn |
| TileCache.PageTree.StopDecodingChildren | src/main/java/org/vudroid/core/PageTreeNode.java:141-147 | after the loop child j is `AfterStopDecoding` of child j of the refreshed node, for every j; the node's own fields are kept; requests are only withdrawn |
| TileCache.PageTree.StopDecodingChild | src/main/java/org/vudroid/core/PageTreeNode.java:143-146 | one iteration: only child i changes, and it becomes `AfterStopDecoding` of itself; requests are only withdrawn and the counter stays consistent |
| TileCache.PageTree.StopDecodingThisNode | src/main/java/org/vudroid/core/PageTreeNode.java:151-159 | the flag ends false; the node had a request exactly when it was decoding, and that request alone is withdrawn |
| TileCache.PageTree.RemoveInvisibleBitmaps | src/main/java/org/vudroid/core/PageTreeNode.java:166-181 | the subtree becomes `AfterRemoveInvisibleBitmaps(n, v)`; requests are only withdrawn, by pruning; the recycled log and the redraw count are unchanged |
| TileCache.PageTree.RemoveInvisibleBitmapsChildren | src/main/java/org/vudroid/core/PageTreeNode.java:169-175 | after the loop child j is `AfterRemoveInvisibleBitmaps` of child j of the refreshed node, for every j; the node's own fields are kept |
| TileCache.PageTree.RemoveInvisibleBitmapsChild | src/main/java/org/vudroid/core/PageTreeNode.java:171-174 | one iteration: only child i changes, and it becomes `AfterRemoveInvisibleBitmaps` of itself; requests are only withdrawn and the counter stays consistent |
| TileCache.PageTree.DropUnseenBitmap | src/main/java/org/vudroid/core/PageTreeNode.java:176-180 | the strong bitmap is kept exactly when the node is visible and not hidden by its children |
| TileCache.PageTree.CheckHiddenByChildren | src/main/java/org/vudroid/core/PageTreeNode.java:183-197 | true exactly when the node has children and every child's `getBitmap()` is non-null |
| TileCache.PageTree.StartDecodingVisibleNodes | src/main/java/org/vudroid/core/PageTreeNode.java:199-221 | The subtree becomes `AfterStartDecoding(n, v, invalidate)`. A request held before and after keeps its arguments. A new one is for a node below this one, and asks for the current zoom and that node's slice, `PathSlice` of this node's slice along the rest of the path. An invisible node changes no request and no counter. Below the threshold, the restore case only withdraws requests, and the decode case leaves the node with a request, for its slice at the current zoom when it was not decoding before. Redraws grow by `Restores(n, v, invalidate)` and nothing is recycled |
| TileCache.PageTree.StartDecodingVisibleNode | src/main/java/org/vudroid/core/PageTreeNode.java:205-220 | the visible case: the subtree becomes `AfterStartVisible(n, v, invalidate)`. Requests are refreshed as above: a kept one keeps its arguments, and a new one is for a node below and asks for the current zoom and that node's slice. Redraws grow by `RestoresVisible` |
| TileCache.PageTree.StartDecodingVisibleChildren | src/main/java/org/vudroid/core/PageTreeNode.java:206-211 | after the loop child j is `AfterStartDecoding` of child j of the refreshed node, for every j. Requests are refreshed: a kept one keeps its arguments, and a new one is for a node below and asks for the current zoom and that node's slice. Redraws grow by the children's `Restores` |
| TileCache.PageTree.StartDecodingVisibleChild | src/main/java/org/vudroid/core/PageTreeNode.java:208-211 | one iteration: only child i changes, and it becomes `AfterStartDecoding` of itself. The requests added so far keep their zoom and slice, those added by child i are for nodes below it at the current zoom and their slices, and a request withdrawn by an earlier child is not asked for again. The redraw count moves on by that child |
| TileCache.PageTree.RestoreOrDecode | src/main/java/org/vudroid/core/PageTreeNode.java:213-220 | a visible node below its threshold whose `getBitmap()` is non-null, without forced invalidation, gets its strong reference restored, changes no request and adds one redraw if it held no strong bitmap. Any other such node ends decoding; if it was not decoding, exactly one request for its slice at the current zoom is added, and otherwise nothing. The node is served afterwards |
| TileCache.PageTree.RestoreBitmapReference | src/main/java/org/vudroid/core/PageTreeNode.java:223-226 | the strong reference becomes what the soft reference yields; nothing is recycled; one redraw only if none was held strongly before |
| TileCache.PageTree.SpawnChildren | src/main/java/org/vudroid/core/PageTreeNode.java:230-240 | a node at or above its threshold with no children gets the four spawned children exactly when it is visible; any other node is unchanged |
| TileCache.PageTree.InvalidateChildren | src/main/java/org/vudroid/core/PageTreeNode.java:228-245 | the node becomes `Invalidated(n, v)`: the children are refreshed, and the memo is filled exactly where the Java evaluation order asks for visibility. Requests are only withdrawn, and not at all when the prune test fails. Four children are present whenever a visible node reaches its threshold |
| TileCache.PageTree.PruneChildren | src/main/java/org/vudroid/core/PageTreeNode.java:241-244 | the children are recycled and possibly dropped exactly when the prune condition holds, and no request changes otherwise; the memo is filled exactly when the condition evaluates `isVisible()`; nothing else of the node changes and no bitmap is recycled |
| TileFacts.InvalidatedBelow | src/main/java/org/vudroid/core/PageTreeNode.java:206-211 | after the refresh a visible node at or above its threshold has four children, so the loop never meets null; every child is one the traversals can recurse on |
| TileFacts.InvalidatedPruned | src/main/java/org/vudroid/core/PageTreeNode.java:241-244 | when the node prunes, every kept descendant is not decoding and holds no strong bitmap, so none has a request |
| TileFacts.InvalidatedDropped | src/main/java/org/vudroid/core/PageTreeNode.java:257-260 | existing children are dropped only when no descendant's `getBitmap()` is non-null |
| TileFacts.InvalidatedWF | src/main/java/org/vudroid/core/PageTreeNode.java:228-245 | the refresh keeps the node well formed |
| TileCache.PageTree.RecycleChildren | src/main/java/org/vudroid/core/PageTreeNode.java:247-261 | every child subtree is recycled; the children are then kept exactly when one of them still contains a bitmap; requests are only withdrawn |
| TileCache.PageTree.RecycleEach | src/main/java/org/vudroid/core/PageTreeNode.java:253-256 | after the loop child i is the recycled child i, for every i; requests are only withdrawn |
| TileCache.PageTree.RecycleChild | src/main/java/org/vudroid/core/PageTreeNode.java:255 | one iteration: only child i changes, and it becomes its recycled self; requests are only withdrawn |
| TileCache.PageTree.CheckContainsBitmaps | src/main/java/org/vudroid/core/PageTreeNode.java:263-266 | true exactly when the node's `getBitmap()` is non-null or a child contains a bitmap |
| TileCache.PageTree.CheckChildrenContainBitmaps | src/main/java/org/vudroid/core/PageTreeNode.java:268-282 | the answer equals `ChildrenContainBitmaps(n)`: true exactly when some child contains a bitmap |
| TileFacts.ContainsBitmapsAt | src/main/java/org/vudroid/core/PageTreeNode.java:263-266 | a subtree contains a bitmap exactly when some node of it yields one from its soft reference |
| TileFacts.ChildrenContainBitmapsAt | src/main/java/org/vudroid/core/PageTreeNode.java:268-282 | the children contain a bitmap exactly when some node strictly below the root yields one from its soft reference |
| TileFacts.BitmapAtContains | src/main/java/org/vudroid/core/PageTreeNode.java:263-282 | a node on a path whose `getBitmap()` is non-null makes every subtree above it contain bitmaps, and the children too when the node is strictly below |
| TileFacts.ContainsBitmapsWitness | src/main/java/org/vudroid/core/PageTreeNode.java:263-266 | a subtree that contains bitmaps has a node on a valid path whose `getBitmap()` is non-null |
| TileFacts.ChildrenBitmapWitness | src/main/java/org/vudroid/core/PageTreeNode.java:268-282 | children that contain bitmaps have such a node strictly below the root |
| TileCache.PageTree.Recycle | src/main/java/org/vudroid/core/PageTreeNode.java:289-300 | the subtree becomes `Recycled(n)`: no node decoding, every request of the subtree withdrawn and the others kept with their arguments, and the counter lowered once per decoding node. Nothing is added to the recycled log, because `setBitmap(null)` recycles nothing |
| TileFacts.RecycledFacts | src/main/java/org/vudroid/core/PageTreeNode.java:289-300 | a recycled subtree has no decoding node and no strong bitmap; whether it contains bitmaps, and its size, are unchanged |
| TileFacts.RecycledQuiet | src/main/java/org/vudroid/core/PageTreeNode.java:289-300 | no node of a recycled subtree is decoding or holds a strong bitmap |
| TileFacts.RecycledContains | src/main/java/org/vudroid/core/PageTreeNode.java:289-300 | recycling changes neither whether a subtree contains bitmaps nor whether its children do |
| TileFacts.RecycledSize | src/main/java/org/vudroid/core/PageTreeNode.java:289-300 | recycling keeps the shape of a subtree, so its size is unchanged |
| TileFacts.RecycledIdempotent | src/main/java/org/vudroid/core/PageTreeNode.java:289-300 | recycling a recycled subtree changes nothing |
| TileFacts.RecycledWF | src/main/java/org/vudroid/core/PageTreeNode.java:289-300 | recycling keeps a subtree well formed |
| TileCache.PageTree.StopDecodingInvisibleNodes | src/main/java/org/vudroid/core/PageTreeNode.java:302-322 | the subtree becomes `AfterStopDecodingInvisible(n, v)`; requests are only withdrawn; the recycled log and the redraw count are unchanged |
| TileCache.PageTree.StopDecodingInvisibleChildren | src/main/java/org/vudroid/core/PageTreeNode.java:305-311 | after the loop child j is `AfterStopDecodingInvisible` of child j of the refreshed node, for every j; the node's own fields are kept |
| TileCache.PageTree.StopDecodingInvisibleChild | src/main/java/org/vudroid/core/PageTreeNode.java:307-310 | one iteration: only child i changes, and it becomes `AfterStopDecodingInvisible` of itself; requests are only withdrawn and the counter stays consistent |
| TileCache.PageTree.StopUnseenDecode | src/main/java/org/vudroid/core/PageTreeNode.java:312-316 | the node stops decoding exactly when it is invisible or hidden by its children, and keeps its flag otherwise; the memo is filled and the request of the node goes with its flag |
| Sweeps.StoppedNoneDecoding | src/main/java/org/vudroid/core/PageTreeNode.java:138-149 | no node of `AfterStopDecoding(n, v)` is decoding |
| Sweeps.StoppedFacts | src/main/java/org/vudroid/core/PageTreeNode.java:138-159 | `stopDecoding()` keeps the node's own slice, threshold, strong and soft bitmaps and the children's number after the refresh; the subtree then holds no decoding node, no decoding path and no progress |
| Sweeps.RemovedReleased | src/main/java/org/vudroid/core/PageTreeNode.java:166-181 | no node of `AfterRemoveInvisibleBitmaps(n, v)` that is invisible or hidden by its children holds a strong bitmap |
| Sweeps.RemovedFacts | src/main/java/org/vudroid/core/PageTreeNode.java:166-181 | `removeInvisibleBitmaps()` keeps the node's own slice, threshold, soft reference, flag and visibility; the node keeps its strong bitmap exactly when it is visible and not hidden by its children, and loses it otherwise; no unseen node below holds one |
| Sweeps.SeenKeepsBitmap | src/main/java/org/vudroid/core/PageTreeNode.java:166-181 | along a path that no refresh spawned or pruned, every node after `removeInvisibleBitmaps()` keeps its strong bitmap exactly when it is visible and not hidden by its children, and loses it otherwise |
| Sweeps.StoppedInvisibleQuiet | src/main/java/org/vudroid/core/PageTreeNode.java:302-322 | no node of `AfterStopDecodingInvisible(n, v)` that is invisible or hidden by its children is decoding |
| Sweeps.StoppedInvisibleFacts | src/main/java/org/vudroid/core/PageTreeNode.java:302-322 | `stopDecodingInvisibleNodes()` keeps the node's own slice, threshold, strong and soft bitmaps and visibility; the node keeps its flag exactly when it is visible and not hidden by its children, and is cancelled otherwise; no unseen node below is decoding |
| Sweeps.SeenKeepsDecoding | src/main/java/org/vudroid/core/PageTreeNode.java:302-322 | along a path that no refresh spawned or pruned, every node after `stopDecodingInvisibleNodes()` keeps its decoding flag exactly when it is visible and not hidden by its children, and is cancelled otherwise |
| Sweeps.StartedServed | src/main/java/org/vudroid/core/PageTreeNode.java:199-221 | every visible path of `AfterStartDecoding(n, v, invalidate)` is served: it ends in four children at or above the threshold, and below it in a node that is decoding or, without forced invalidation, holds a bitmap |
| Sweeps.StartedVisibleServed | src/main/java/org/vudroid/core/PageTreeNode.java:205-220 | the same for the visible case `AfterStartVisible(n, v, invalidate)` |
| TileCache.PageTree.InvalidateNodeBounds | src/main/java/org/vudroid/core/PageTreeNode.java:324-334 | the subtree becomes `ClearedTargets(n)`: every memo is cleared and nothing else changes |
| TileFacts.ClearedFacts | src/main/java/org/vudroid/core/PageTreeNode.java:324-334 | after clearing, no memo is left and each target rectangle is the slice mapped afresh. Decoding nodes, requests and well-formedness are unchanged |
| TileFacts.ClearedIdempotent | src/main/java/org/vudroid/core/PageTreeNode.java:324-334 | clearing the memos twice is clearing them once |
| TileCache.PageTree.StartDecodingPage | src/main/java/org/vudroid/core/PageTreeNode.java:199-221 | from the root the page becomes `AfterStartDecoding` of the old root and stays valid; every visible path is served; a kept request keeps its arguments, and a new request names a node of the new tree and asks for the current zoom and the slice stored on that node; redraws grow by `Restores` and nothing is recycled |
| Sweeps.StartedPage | src/main/java/org/vudroid/core/PageTreeNode.java:199-221 | `startDecodingVisibleNodes` run from the root keeps the progress equation, the one-request-per-decoding-node equation and the request slices of a valid page, keeps the root's slice, and every request it adds names a node of the new tree and asks for the current zoom and the slice stored on that node |
| TileCache.PageTree.RequestSlices | src/main/java/org/vudroid/core/PageTreeNode.java:89-107 | in a valid page every outstanding request names a node of the tree and asks for the slice stored on that node |
| TileFacts.PathSliceAt | src/main/java/org/vudroid/core/PageTreeNode.java:29-41 | in a well-formed tree the slice stored on the node at a path is the slice the path names, quadrant by quadrant from the root's slice |
| TileCache.PageTree.StopDecodingPage | src/main/java/org/vudroid/core/PageTreeNode.java:138-159 | from the root the page becomes `AfterStopDecoding` of the old root; no node decodes, the decode service holds no request of the page, the counter is back at its base, and nothing is recycled or redrawn |
| TileCache.PageTree.RemoveInvisibleBitmapsPage | src/main/java/org/vudroid/core/PageTreeNode.java:166-181 | from the root the page becomes `AfterRemoveInvisibleBitmaps` of the old root and stays valid; every unseen node has dropped its strong bitmap; requests are only withdrawn |
| TileCache.PageTree.StopDecodingInvisibleNodesPage | src/main/java/org/vudroid/core/PageTreeNode.java:302-322 | from the root the page becomes `AfterStopDecodingInvisible` of the old root and stays valid; no unseen node is decoding; requests are only withdrawn |
| TileCache.PageTree.InvalidateNodeBoundsPage | src/main/java/org/vudroid/core/PageTreeNode.java:324-334 | from the root every memo is cleared and the page stays valid |
| TileCache.PageTree.Reclaim | src/main/java/org/vudroid/core/PageTreeNode.java:64-67 | the collector may clear a soft reference only while no strong reference is held; afterwards `getBitmap()` of that node yields null and the page stays valid |

## Left out

- `draw` (PageTreeNode.java:109-123) paints through Android's `Canvas`, `Paint` and `Rect`. It changes no node state besides the memo filled by `getTargetRect`, and it is not modelled.
- Coordinates are `real`. The single-precision rounding of `RectF` and `Matrix` is not modelled.
- `MapRect` returns the bounding box of the two mapped corners, as `Matrix.mapRect` does. It equals the corner-wise image `Scaled` for sorted rectangles, which are the only ones the node builds.
- The decode service's own work is not modelled: asynchronous decode, threads, and races between cancellation and completion. The service is a map from node path to the request's zoom and slice.
  - A completion is the method `DecodeComplete`, which runs sequentially.
  - A completion for a path with no outstanding request, such as a cancelled one, changes nothing.
- `DecodeComplete` runs the callback only on a node whose request is still outstanding. The case the source leaves open is not modelled: a late callback that reaches a node which was recycled or dropped in the meantime.
- `page.setAspectRatio` together with `getPageWidth` and `getPageHeight` (line 103) belongs to the page and the decode service. Only the number of `setAspectRatio` calls is recorded. `Page.java` is not part of this model.
- The `DocumentView` wiring (`postInvalidate`, `progressModel`, `zoomModel`, `getViewRect`, `page.bounds`) is modelled as fields of `PageTree` plus the `View` parameter. The parameter is fixed for the length of one traversal.
- The garbage collector is not modelled beyond the explicit `Reclaim`.
  - `Reclaim` clears a soft reference only while no strong reference is held: the collector cannot free a bitmap that is still strongly reachable.
  - Under that rule, `WF` keeps the strong bitmap equal to what the soft reference yields.
- Object identity is modelled by value, in two ways:
  - A node is identified by its path, and is updated by returning the new node value rather than in place. Aliasing between nodes cannot arise.
  - A bitmap is compared by its `id`, width and height, which stand for the Java reference comparison.
- TileCache.PageTree.constructor requires a positive threshold. With a threshold of zero or below, the Java traversals need not terminate on a visible node. The model's termination measure counts doublings of a positive threshold.
- TileCache.PageTree.StartDecodingVisibleNodes fills the target-rectangle memo even on an invisible node, where it is stated as otherwise changing nothing. The Java `isVisible()` writes the memo through `getTargetRect()`, and the model follows the code.
- `isDecodingNow`, `getBitmap` and `thresholdHit` are plain field reads and comparisons. They are the functions `GetBitmap` and `ThresholdHit` and the field `decoding`, and need no row of their own.
- `progressModel` is one counter of the document view, shared by the nodes of every page. The model gives each `PageTree` its own counter, and `Valid()`'s equation `progress == baseProgress + Count(root)` holds only while no other page moves it. The other pages are not part of this model.
