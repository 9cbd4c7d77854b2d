/** One page's tile quadtree as a value: what a `PageTreeNode` holds (its page
    slice, zoom threshold, strong and soft bitmap references, decoding flag,
    children and target-rectangle memo) and the pure queries the traversals
    ask of it. */
module Tiles {
  import opened Geometry
  import opened Wrappers

  /** A bitmap handed out by the decoder; `id` stands for object identity. */
  datatype Bitmap = Bitmap(id: nat, width: int, height: int)

  /** The -1 x -1 bitmap that `setBitmap` ignores. Only this exact size is
      refused; a bitmap of zero area is stored like any other. */
  predicate IsSentinel(b: Bitmap) { b.width == -1 && b.height == -1 }

  /** One tile.
      - slice: `pageSliceBounds`, the node's part of the page in [0,1] x [0,1]
      - threshold: `childrenZoomThreshold`
      - bitmap: the strong reference `bitmap`
      - soft: what `bitmapWeakReference.get()` yields (None when there is no
        reference or the collector has cleared it)
      - decoding: `decodingNow`
      - children: [] for a null array, otherwise the four children
      - target: the `targetRect` memo */
  datatype Node = Node(
    slice: Rect,
    threshold: real,
    bitmap: Option<Bitmap>,
    soft: Option<Bitmap>,
    decoding: bool,
    children: seq<Node>,
    target: Option<Rect>)

  /** A node's identity: the child indexes leading to it from the root. */
  type Path = seq<nat>

  /** What a traversal reads from the document view: the zoom, the visible
      rectangle, and the page bounds used to map slices. */
  datatype View = View(zoom: real, viewRect: Rect, pageBounds: Rect)

  /** The arguments a node passes to the decode service. */
  datatype DecodeRequest = DecodeRequest(zoom: real, slice: Rect)

  /** Only withdrawals: every request held in `after` was held in `before`,
      with the same arguments. */
  predicate Withdrawn(after: map<Path, DecodeRequest>, before: map<Path, DecodeRequest>)
  {
    forall q :: q in after ==> q in before && after[q] == before[q]
  }

  /** The absolute slice of the node at path `q` below a node whose slice
      is `s`: each index of the path takes that quadrant of the slice
      reached so far. An index past 3 names no child and stops the descent;
      a well-formed tree has no such path (`PathSliceAt`). */
  function PathSlice(s: Rect, q: Path): Rect
    decreases |q|
  {
    if q == [] || q[0] >= 4 then s else PathSlice(ChildSlice(s, q[0]), q[1..])
  }

  /** Withdrawals and new requests at `zoom` under the node at `p`, whose
      slice is `s`: a request held both before and after keeps its
      arguments, and one held only after is for a node below `p` and asks
      for `zoom` and that node's slice. */
  predicate Refreshed(after: map<Path, DecodeRequest>, before: map<Path, DecodeRequest>, zoom: real,
                      s: Rect, p: Path)
  {
    forall q :: q in after ==>
      if q in before then after[q] == before[q]
      else Prefix(p, q) && after[q] == DecodeRequest(zoom, PathSlice(s, q[|p|..]))
  }

  /** Every request withdrawn between `before` and `after` lies under one of
      the first `i` children of the node at `p`. */
  predicate WithdrawnBelow(after: map<Path, DecodeRequest>, before: map<Path, DecodeRequest>, p: Path, i: nat)
  {
    forall q :: q in before && q !in after ==> |p| < |q| && q[|p|] < i
  }

  /** A root keeps its local slice; a child's local slice is scaled by the
      parent slice's size and translated by its top-left corner. */
  function EvaluatePageSliceBounds(local: Rect, parent: Option<Rect>): (r: Rect)
    ensures parent.None? ==> r == local
    ensures parent.Some? && Proper(local) && Proper(parent.value) ==>
      r.left == Width(parent.value) * local.left + parent.value.left &&
      r.right == Width(parent.value) * local.right + parent.value.left &&
      r.top == Height(parent.value) * local.top + parent.value.top &&
      r.bottom == Height(parent.value) * local.bottom + parent.value.top
  {
    if parent.None? then local else MapRect(local, parent.value)
  }

  /** The `PageTreeNode` constructor: no bitmap, not decoding, no children,
      no memo. */
  function NewNode(local: Rect, parent: Option<Rect>, threshold: real): (r: Node)
    ensures threshold > 0.0 ==> WF(r) && Count(r) == 0
  {
    Node(EvaluatePageSliceBounds(local, parent), threshold, None, None, false, [], None)
  }

  /** The four children created when `n` subdivides: empty leaves over the
      four quadrants of its slice, each with twice its threshold. */
  function Spawn(n: Node): (cs: seq<Node>)
    ensures |cs| == 4
    ensures forall k :: 0 <= k < 4 ==>
      cs[k].slice == ChildSlice(n.slice, k) && cs[k].threshold == 2.0 * n.threshold &&
      cs[k].bitmap.None? && cs[k].soft.None? && !cs[k].decoding &&
      cs[k].children == [] && cs[k].target.None?
  {
    var t := n.threshold * 2.0;
    [NewNode(Quadrants[0], Some(n.slice), t), NewNode(Quadrants[1], Some(n.slice), t),
     NewNode(Quadrants[2], Some(n.slice), t), NewNode(Quadrants[3], Some(n.slice), t)]
  }

  function GetBitmap(n: Node): Option<Bitmap> { n.soft }

  predicate ThresholdHit(n: Node, zoom: real) { zoom >= n.threshold }

  /** The target rectangle `getTargetRect` returns: the memo when there is
      one, otherwise the slice mapped through the page bounds. */
  function TargetRect(n: Node, bounds: Rect): Rect
  {
    if n.target.Some? then n.target.value else MapRect(n.slice, bounds)
  }

  predicate IsVisible(n: Node, v: View)
  {
    Intersects(v.viewRect, TargetRect(n, v.pageBounds))
  }

  predicate IsHiddenByChildren(n: Node)
  {
    |n.children| > 0 &&
    forall i :: 0 <= i < |n.children| ==> GetBitmap(n.children[i]).Some?
  }

  predicate IsVisibleAndNotHiddenByChildren(n: Node, v: View)
  {
    IsVisible(n, v) && !IsHiddenByChildren(n)
  }

  predicate ContainsBitmaps(n: Node)
    decreases n, 1
  {
    GetBitmap(n).Some? || ChildrenContainBitmaps(n)
  }

  predicate ChildrenContainBitmaps(n: Node)
    decreases n, 0
  {
    exists i :: 0 <= i < |n.children| && ContainsBitmaps(n.children[i])
  }

  /** Well-formedness of a subtree: thresholds are positive and double from
      parent to child, a strong bitmap is also what the soft reference yields,
      a node has no children or four, and child `k` owns quadrant `k` of its
      parent's slice. */
  ghost predicate WF(n: Node)
    decreases n
  {
    n.threshold > 0.0 &&
    (n.bitmap.Some? ==> n.soft == n.bitmap) &&
    (n.soft.Some? ==> !IsSentinel(n.soft.value)) &&
    (|n.children| == 0 || |n.children| == 4) &&
    forall k :: 0 <= k < |n.children| ==>
      n.children[k].slice == ChildSlice(n.slice, k) &&
      n.children[k].threshold == 2.0 * n.threshold &&
      WF(n.children[k])
  }

  /** The number of nodes of the subtree whose decoding flag is set. */
  function Count(n: Node): nat
    decreases n
  {
    (if n.decoding then 1 else 0) + CountSeq(n.children)
  }

  function CountSeq(cs: seq<Node>): nat
    decreases cs
  {
    if cs == [] then 0 else CountSeq(cs[..|cs| - 1]) + Count(cs[|cs| - 1])
  }

  /** The paths of the decoding nodes of the subtree at path `p`. */
  function Paths(n: Node, p: Path): set<Path>
    decreases n
  {
    (if n.decoding then {p} else {}) + PathsSeq(n.children, p)
  }

  function PathsSeq(cs: seq<Node>, p: Path): set<Path>
    decreases cs
  {
    if cs == [] then {}
    else PathsSeq(cs[..|cs| - 1], p) + Paths(cs[|cs| - 1], p + [|cs| - 1])
  }

  function Size(n: Node): nat
    decreases n
  {
    1 + SizeSeq(n.children)
  }

  function SizeSeq(cs: seq<Node>): nat
    decreases cs
  {
    if cs == [] then 0 else SizeSeq(cs[..|cs| - 1]) + Size(cs[|cs| - 1])
  }

  lemma HalfFloor(x: real)
    requires x >= 1.0
    ensures 0 <= (x / 2.0).Floor < x.Floor
  {
  }

  lemma RatioHalves(zoom: real, t: real)
    requires t > 0.0 && zoom >= t
    ensures zoom / (2.0 * t) == (zoom / t) / 2.0
    ensures zoom / t >= 1.0
  {
  }

  /** How many times a threshold can double before it exceeds the zoom: the
      number of generations a traversal at this zoom can still spawn. */
  function Levels(t: real, zoom: real): nat
    requires t > 0.0
    decreases if zoom >= t then (zoom / t).Floor else 0
  {
    if zoom >= t then
      RatioHalves(zoom, t); HalfFloor(zoom / t);
      1 + Levels(2.0 * t, zoom)
    else 0
  }

  /** The subtree after `recycle()`: every node cancelled and its strong
      reference cleared; soft references, slices and shape are kept. */
  function Recycled(n: Node): Node
    decreases n
  {
    n.(bitmap := None, decoding := false, children := RecycledSeq(n.children))
  }

  function RecycledSeq(cs: seq<Node>): (ds: seq<Node>)
    ensures |ds| == |cs| && forall i :: 0 <= i < |cs| ==> ds[i] == Recycled(cs[i])
    decreases cs
  {
    if cs == [] then [] else RecycledSeq(cs[..|cs| - 1]) + [Recycled(cs[|cs| - 1])]
  }

  /** The children left by `recycleChildren()`: recycled and kept while one
      of them still holds a bitmap, otherwise dropped. */
  function PrunedChildren(n: Node): seq<Node>
  {
    if ChildrenContainBitmaps(n) then Recycled(n).children else []
  }

  /** When `invalidateChildren()` recycles the children: below the threshold
      with a bitmap of its own, or invisible. */
  predicate PruneCondition(n: Node, v: View)
  {
    (!ThresholdHit(n, v.zoom) && GetBitmap(n).Some?) || !IsVisible(n, v)
  }

  /** The children left by `invalidateChildren()`. */
  function InvalidatedChildren(n: Node, v: View): seq<Node>
  {
    if ThresholdHit(n, v.zoom) && |n.children| == 0 && IsVisible(n, v) then Spawn(n)
    else if PruneCondition(n, v) then PrunedChildren(n)
    else n.children
  }

  /** The node after `invalidateChildren()`: its children refreshed, and its
      memo filled unless the first disjunct of the prune test already
      answered it. */
  function Invalidated(n: Node, v: View): Node
  {
    n.(children := InvalidatedChildren(n, v),
       target := if !ThresholdHit(n, v.zoom) && GetBitmap(n).Some? then n.target
                 else Some(TargetRect(n, v.pageBounds)))
  }

  /** The node after `setBitmap(b)`. */
  function AfterSetBitmap(n: Node, b: Option<Bitmap>): Node
  {
    if b.Some? && IsSentinel(b.value) then n
    else if n.bitmap == b then n
    else if b.Some? then n.(bitmap := b, soft := b)
    else n.(bitmap := None)
  }

  /** `c` is a child on which a traversal at this zoom may recurse: it has
      fewer generations left to spawn than `n`, or as many and is a smaller
      tree. */
  ghost predicate Below(c: Node, n: Node, zoom: real)
  {
    c.threshold > 0.0 && n.threshold > 0.0 &&
    (Levels(c.threshold, zoom) < Levels(n.threshold, zoom) ||
     (Levels(c.threshold, zoom) == Levels(n.threshold, zoom) && Size(c) < Size(n)))
  }

  /** The subtree after `invalidateNodeBounds()`: every memo cleared. */
  function ClearedTargets(n: Node): Node
    decreases n
  {
    n.(target := None, children := ClearedSeq(n.children))
  }

  function ClearedSeq(cs: seq<Node>): (ds: seq<Node>)
    ensures |ds| == |cs| && forall i :: 0 <= i < |cs| ==> ds[i] == ClearedTargets(cs[i])
    decreases cs
  {
    if cs == [] then [] else ClearedSeq(cs[..|cs| - 1]) + [ClearedTargets(cs[|cs| - 1])]
  }

  ghost predicate NoneDecoding(n: Node)
    decreases n
  {
    !n.decoding && forall i :: 0 <= i < |n.children| ==> NoneDecoding(n.children[i])
  }

  ghost predicate NoStrongBitmaps(n: Node)
    decreases n
  {
    n.bitmap.None? && forall i :: 0 <= i < |n.children| ==> NoStrongBitmaps(n.children[i])
  }

  ghost predicate NoTargets(n: Node)
    decreases n
  {
    n.target.None? && forall i :: 0 <= i < |n.children| ==> NoTargets(n.children[i])
  }

  /** Every node that is invisible or hidden by its children has no strong
      bitmap. */
  ghost predicate Released(n: Node, v: View)
    decreases n
  {
    (!IsVisibleAndNotHiddenByChildren(n, v) ==> n.bitmap.None?) &&
    forall i :: 0 <= i < |n.children| ==> Released(n.children[i], v)
  }

  /** Every node that is invisible or hidden by its children is not decoding. */
  ghost predicate Quiet(n: Node, v: View)
    decreases n
  {
    (!IsVisibleAndNotHiddenByChildren(n, v) ==> !n.decoding) &&
    forall i :: 0 <= i < |n.children| ==> Quiet(n.children[i], v)
  }

  /** Along every visible path: a node at or above its threshold has four
      children, and a node below it is decoding, or (when no forced
      invalidation was asked for) holds its bitmap strongly. */
  ghost predicate Served(n: Node, v: View, invalidate: bool)
    decreases n
  {
    IsVisible(n, v) ==>
      if ThresholdHit(n, v.zoom) then
        |n.children| == 4 &&
        forall i :: 0 <= i < |n.children| ==> Served(n.children[i], v, invalidate)
      else
        n.decoding || (!invalidate && n.bitmap.Some?)
  }

  predicate ValidPath(n: Node, s: Path)
    decreases s
  {
    s == [] || (s[0] < |n.children| && ValidPath(n.children[s[0]], s[1..]))
  }

  function At(n: Node, s: Path): Node
    requires ValidPath(n, s)
    decreases s
  {
    if s == [] then n else At(n.children[s[0]], s[1..])
  }

  function Replace(n: Node, s: Path, x: Node): Node
    requires ValidPath(n, s)
    decreases s
  {
    if s == [] then x
    else n.(children := n.children[s[0] := Replace(n.children[s[0]], s[1..], x)])
  }

  predicate Prefix(p: Path, q: Path) { |p| <= |q| && q[..|p|] == p }

  /** No path of `others` lies in the subtree at `p`. */
  ghost predicate Outside(others: set<Path>, p: Path)
  {
    forall q :: q in others ==> !Prefix(p, q)
  }
}
