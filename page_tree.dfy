/** The tile tree of one page together with the state a `PageTreeNode`
    changes outside itself: the document view's progress counter and redraw
    requests, the bitmaps it recycles, the decode service's outstanding
    requests and the page's aspect-ratio updates.

    Each state-changing `PageTreeNode` method becomes a method on a node
    value `n` that returns the node as the Java method leaves it, and updates
    the shared counters in place; those that touch the decode service also
    take the node's path `p`. The ghost set `others` holds the decode
    requests that belong to nodes outside the subtree at `p`; the requests of
    the subtree are exactly the paths of its decoding nodes. */
module TileCache {
  import opened Geometry
  import opened Wrappers
  import opened Tiles
  import opened TileFacts
  import opened Sweeps

  class PageTree {
    /** The root node of the page. */
    var root: Node
    /** `documentView.progressModel`: raised and lowered around each decode. */
    var progress: int
    /** The number of `documentView.postInvalidate()` calls. */
    var redraws: nat
    /** The bitmaps passed to `Bitmap.recycle()`, in order. */
    var recycled: seq<Bitmap>
    /** The decode service's outstanding requests, keyed by node. */
    var pending: map<Path, DecodeRequest>
    /** The number of `page.setAspectRatio(...)` calls. */
    var aspectUpdates: nat
    /** The progress value when the page had no decoding node. */
    const baseProgress: int

    /** The tree is well formed, the progress counter is raised once per
        decoding node, and the decode service holds one request per decoding
        node and no other, each for the slice its path names. */
    ghost predicate Valid()
      reads this
    {
      WF(root) && progress == baseProgress + Count(root) && pending.Keys == Paths(root, []) &&
      forall q :: q in pending ==> pending[q].slice == PathSlice(root.slice, q)
    }

    /** Each outstanding request names a node of the page and asks for the
        slice stored on that node. */
    lemma RequestSlices(q: Path)
      requires Valid() && q in pending
      ensures ValidPath(root, q) && pending[q].slice == At(root, q).slice
    {
      PathsValid(root, [], q);
      assert q[0..] == q;
      PathSliceAt(root, q);
    }

    /** The progress counter stands at its base plus the number of
        outstanding decode requests of the page, so it never drops below its
        base. */
    lemma PendingMatchesProgress()
      requires Valid()
      ensures progress == baseProgress + |pending.Keys| && progress >= baseProgress
    {
      PathsCount(root, []);
    }

    /** A page's root node over `local` with the given zoom threshold. */
    constructor (local: Rect, threshold: real, progress0: int)
      requires threshold > 0.0
      ensures Valid()
      ensures root == NewNode(local, None, threshold)
      ensures progress == progress0 && redraws == 0 && recycled == [] &&
              pending == map[] && aspectUpdates == 0
    {
      root := NewNode(local, None, threshold);
      progress := progress0;
      baseProgress := progress0;
      redraws := 0;
      recycled := [];
      pending := map[];
      aspectUpdates := 0;
    }

    // ------------------------------------------------------------ one node

    /** `setBitmap`: the -1 x -1 bitmap and the instance already held are
        ignored; a new bitmap recycles the previous one, becomes the soft
        reference and asks for a redraw; null only drops the strong
        reference. */
    method SetBitmap(n: Node, b: Option<Bitmap>) returns (r: Node)
      modifies this`recycled, this`redraws
      ensures r == AfterSetBitmap(n, b)
      ensures (b.Some? && IsSentinel(b.value)) || b == n.bitmap ==>
        recycled == old(recycled) && redraws == old(redraws)
      ensures b.Some? && !IsSentinel(b.value) && b != n.bitmap ==>
        redraws == old(redraws) + 1 &&
        recycled == old(recycled) + (if n.bitmap.Some? then [n.bitmap.value] else [])
      ensures b.None? ==> recycled == old(recycled) && redraws == old(redraws)
    {
      if b.Some? && IsSentinel(b.value) {
        return n;
      }
      r := n;
      if n.bitmap != b {
        if b.Some? {
          if n.bitmap.Some? {
            recycled := recycled + [n.bitmap.value];
          }
          r := r.(soft := b);
          redraws := redraws + 1;
        }
        r := r.(bitmap := b);
      }
    }

    /** `setDecodingNow`: the counter moves only when the flag changes. */
    method SetDecodingNow(n: Node, decoding: bool) returns (r: Node)
      modifies this`progress
      ensures r == n.(decoding := decoding) && WF(r) == WF(n)
      ensures progress == old(progress) +
        (if decoding && !n.decoding then 1 else if !decoding && n.decoding then -1 else 0)
      ensures progress == old(progress) - Count(n) + Count(r)
    {
      r := n;
      if n.decoding != decoding {
        r := n.(decoding := decoding);
        if decoding {
          progress := progress + 1;
        } else {
          progress := progress - 1;
        }
      }
    }

    /** `getTargetRect`: the memo when there is one, otherwise the slice
        mapped through the page bounds, which then becomes the memo. */
    method GetTargetRect(n: Node, bounds: Rect) returns (r: Node, rect: Rect)
      ensures n.target.Some? ==> rect == n.target.value && r == n
      ensures n.target.None? ==> rect == MapRect(n.slice, bounds)
      ensures r == n.(target := Some(rect))
      ensures TargetRect(r, bounds) == rect
      ensures WF(r) == WF(n)
    {
      if n.target.None? {
        r := n.(target := Some(MapRect(n.slice, bounds)));
      } else {
        r := n;
      }
      rect := r.target.value;
    }
 
    /** `isVisible`: the target rectangle overlaps the view rectangle. The
        memo is filled on the way. */
    method CheckVisible(n: Node, v: View) returns (r: Node, visible: bool)
      ensures visible == IsVisible(n, v) && visible == IsVisible(r, v)
      ensures r == n.(target := Some(TargetRect(n, v.pageBounds)))
      ensures WF(r) == WF(n)
    {
      var rect;
      r, rect := GetTargetRect(n, v.pageBounds);
      visible := Intersects(v.viewRect, rect);
    }

    /** The decode service holds, besides `others`, exactly one request per
        decoding node of the subtree `n` at `p`. */
    ghost predicate Owns(n: Node, p: Path, others: set<Path>)
      reads this
    {
      Outside(others, p) && pending.Keys == others + Paths(n, p)
    }

    /** `decodePageTreeNode`: a node already decoding is left alone;
        otherwise it is flagged and one request for its slice at the current
        zoom is handed to the decode service. */
    method DecodePageTreeNode(n: Node, p: Path, zoom: real, ghost others: set<Path>) returns (r: Node)
      requires Owns(n, p, others)
      modifies this`progress, this`pending
      ensures Owns(r, p, others)
      ensures WF(r) == WF(n)
      ensures n.decoding ==> r == n && pending == old(pending) && progress == old(progress)
      ensures !n.decoding ==>
        r == n.(decoding := true) && p !in old(pending) &&
        pending == old(pending)[p := DecodeRequest(zoom, n.slice)]
      ensures progress == old(progress) - Count(n) + Count(r)
    {
      if n.decoding {
        return n;
      }
      OwnPath(n, p);
      assert p !in others by {
        assert Prefix(p, p);
      }
      r := SetDecodingNow(n, true);
      pending := pending[p := DecodeRequest(zoom, n.slice)];
    }

    /** `stopDecodingThisNode`: a decoding node's request is withdrawn from
        the decode service and its flag cleared; any other node is left
        alone. */
    method StopDecodingThisNode(n: Node, p: Path, ghost others: set<Path>) returns (r: Node)
      requires Owns(n, p, others)
      modifies this`progress, this`pending
      ensures Owns(r, p, others)
      ensures r == n.(decoding := false) && WF(r) == WF(n)
      ensures (p in old(pending)) == n.decoding
      ensures pending == old(pending) - {p} && Withdrawn(pending, old(pending))
      ensures progress == old(progress) - Count(n) + Count(r)
    {
      OwnPath(n, p);
      assert p !in others by {
        assert Prefix(p, p);
      }
      if !n.decoding {
        return n;
      }
      pending := pending - {p};
      r := SetDecodingNow(n, false);
      OwnPath(r, p);
    }

    /** `recycle`: the whole subtree is cancelled and loses its strong
        bitmaps, parent before children. */
    method Recycle(n: Node, p: Path, ghost others: set<Path>) returns (r: Node)
      requires Owns(n, p, others)
      modifies this`progress, this`pending, this`recycled, this`redraws
      ensures r == Recycled(n) && Count(r) == 0 && Paths(r, p) == {}
      ensures pending.Keys == others && Withdrawn(pending, old(pending))
      ensures progress == old(progress) - Count(n)
      ensures recycled == old(recycled) && redraws == old(redraws)
      decreases Size(n), 2
    {
      r := StopDecodingThisNode(n, p, others);
      r := SetBitmap(r, None);
      assert r == n.(decoding := false, bitmap := None);
      r := RecycleEach(r, p, others);
      assert Count(r) == 0 && Paths(r, p) == {} by {
        RecycledFacts(n);
        NoneDecodingCount(r);
        NoneDecodingPaths(r, p);
      }
    }

    /** The loop shared by `recycle` and `recycleChildren`: every child of
        `m` is recycled, in order. */
    method RecycleEach(m: Node, p: Path, ghost others: set<Path>) returns (r: Node)
      requires Owns(m, p, others)
      modifies this`progress, this`pending, this`recycled, this`redraws
      ensures r == m.(children := RecycledSeq(m.children))
      ensures Owns(r, p, others) && Withdrawn(pending, old(pending))
      ensures progress == old(progress) - Count(m) + Count(r)
      ensures recycled == old(recycled) && redraws == old(redraws)
      decreases Size(m), 1
    {
      r := m;
      for i := 0 to |m.children|
        invariant r == m.(children := r.children) && |r.children| == |m.children|
        invariant forall j :: 0 <= j < i ==> r.children[j] == Recycled(m.children[j])
        invariant forall j :: i <= j < |r.children| ==> r.children[j] == m.children[j]
        invariant Owns(r, p, others) && Withdrawn(pending, old(pending))
        invariant progress == old(progress) - Count(m) + Count(r)
        invariant recycled == old(recycled) && redraws == old(redraws)
      {
        SizeChild(m, i);
        r := RecycleChild(r, i, p, others, m);
      }
      assert r.children == RecycledSeq(m.children);
    }

    /** One turn of that loop: child `i` of `m` is recycled. */
    method RecycleChild(m: Node, i: nat, p: Path, ghost others: set<Path>, ghost n: Node) returns (r: Node)
      requires Owns(m, p, others) && i < |m.children| && Size(m.children[i]) < Size(n)
      modifies this`progress, this`pending, this`recycled, this`redraws
      ensures |r.children| == |m.children| && r == m.(children := m.children[i := r.children[i]])
      ensures r.children[i] == Recycled(m.children[i])
      ensures Owns(r, p, others) && Withdrawn(pending, old(pending))
      ensures progress == old(progress) - Count(m) + Count(r)
      ensures recycled == old(recycled) && redraws == old(redraws)
      decreases Size(n), 0
    {
      ghost var sib := Siblings(m, p, i);
      SiblingsFrame(m, p, i, others);
      var c := Recycle(m.children[i], p + [i], others + sib);
      SiblingsUpdate(m, p, i, c);
      r := m.(children := m.children[i := c]);
      assert Owns(r, p, others) by {
        SiblingsBack(pending.Keys, others, m, p, i, c);
      }
    }

    /** `recycleChildren`: every child subtree is recycled; the children are
        then dropped unless one of them still yields a bitmap. */
    method RecycleChildren(n: Node, p: Path, ghost others: set<Path>) returns (r: Node)
      requires Owns(n, p, others)
      modifies this`progress, this`pending, this`recycled, this`redraws
      ensures r == n.(children := PrunedChildren(n))
      ensures WF(n) ==> WF(r)
      ensures Owns(r, p, others) && Withdrawn(pending, old(pending))
      ensures progress == old(progress) - Count(n) + Count(r)
      ensures recycled == old(recycled) && redraws == old(redraws)
    {
      if |n.children| == 0 {
        return n;
      }
      r := RecycleEach(n, p, others);
      assert r.children == Recycled(n).children;
      assert ChildrenContainBitmaps(r) == ChildrenContainBitmaps(n) by {
        RecycledFacts(n);
        assert ChildrenContainBitmaps(r) == ChildrenContainBitmaps(Recycled(n));
      }
      assert WF(n) ==> WF(n.(children := PrunedChildren(n))) by {
        if WF(n) {
          PrunedWF(n);
        }
      }
      var keep := CheckChildrenContainBitmaps(r);
      if !keep {
        assert PathsSeq(r.children, p) == {} && CountSeq(r.children) == 0 by {
          RecycledFacts(n);
          NoneDecodingPaths(Recycled(n), p);
          NoneDecodingCount(Recycled(n));
        }
        r := r.(children := []);
      }
    }

    /** `restoreBitmapReference`: the bitmap the soft reference still yields
        is held strongly again. */
    method RestoreBitmapReference(n: Node) returns (r: Node)
      requires WF(n)
      modifies this`recycled, this`redraws
      ensures r == n.(bitmap := n.soft) && WF(r)
      ensures recycled == old(recycled)
      ensures redraws == old(redraws) + (if n.bitmap.None? && n.soft.Some? then 1 else 0)
    {
      r := SetBitmap(n, GetBitmap(n));
    }

    /** The first half of `invalidateChildren`: a node at or above its
        threshold with no children asks whether it is visible and, if so,
        gets four new children. */
    method SpawnChildren(n: Node, p: Path, v: View, ghost others: set<Path>) returns (r: Node)
      requires WF(n) && Owns(n, p, others)
      ensures ThresholdHit(n, v.zoom) && |n.children| == 0 ==>
        r == n.(target := Some(TargetRect(n, v.pageBounds)),
                children := if IsVisible(n, v) then Spawn(n) else [])
      ensures !(ThresholdHit(n, v.zoom) && |n.children| == 0) ==> r == n
      ensures WF(r) && Owns(r, p, others) && Count(r) == Count(n)
    {
      r := n;
      if ThresholdHit(r, v.zoom) && |r.children| == 0 {
        var visible;
        r, visible := CheckVisible(r, v);
        if visible {
          SpawnFacts(n, p);
          r := r.(children := Spawn(n));
          assert PathsSeq(n.children, p) == {};
          assert Paths(r, p) == Paths(n, p);
        }
      }
    }

    /** `invalidateChildren`: a visible node at or above its threshold with
        no children gets four; a node below its threshold that has a bitmap,
        or an invisible node, recycles its children. Visibility is asked only
        where the Java evaluation order reaches it, and each ask fills the
        memo. */
    method InvalidateChildren(n: Node, p: Path, v: View, ghost others: set<Path>) returns (r: Node)
      requires WF(n) && Owns(n, p, others)
      modifies this`progress, this`pending, this`recycled, this`redraws
      ensures r == Invalidated(n, v)
      ensures r.target == if !ThresholdHit(n, v.zoom) && GetBitmap(n).Some? then n.target
                          else Some(TargetRect(n, v.pageBounds))
      ensures WF(r) && IsVisible(r, v) == IsVisible(n, v)
      ensures IsVisible(n, v) && ThresholdHit(n, v.zoom) ==> |r.children| == 4
      ensures forall i :: 0 <= i < |r.children| ==> Below(r.children[i], n, v.zoom)
      ensures Owns(r, p, others) && Withdrawn(pending, old(pending))
      ensures !PruneCondition(n, v) ==> pending == old(pending)
      ensures progress == old(progress) - Count(n) + Count(r)
      ensures recycled == old(recycled) && redraws == old(redraws)
    {
      r := SpawnChildren(n, p, v, others);
      assert PruneCondition(r, v) == PruneCondition(n, v);
      assert TargetRect(r, v.pageBounds) == TargetRect(n, v.pageBounds);
      r := PruneChildren(r, p, v, others);
      assert r.children == InvalidatedChildren(n, v);
      assert (IsVisible(n, v) && ThresholdHit(n, v.zoom) ==> |r.children| == 4) &&
             forall i :: 0 <= i < |r.children| ==> Below(r.children[i], n, v.zoom) by {
        InvalidatedBelow(n, v);
      }
    }

    /** The second half of `invalidateChildren`: a node below its threshold
        that has a bitmap, or an invisible node, recycles its children. The
        visibility check, and with it the memo, is reached only when the
        first disjunct is false. */
    method PruneChildren(m: Node, p: Path, v: View, ghost others: set<Path>) returns (r: Node)
      requires WF(m) && Owns(m, p, others)
      modifies this`progress, this`pending, this`recycled, this`redraws
      ensures r.children == if PruneCondition(m, v) then PrunedChildren(m) else m.children
      ensures r == m.(children := r.children, target := r.target)
      ensures r.target == if !ThresholdHit(m, v.zoom) && GetBitmap(m).Some? then m.target
                          else Some(TargetRect(m, v.pageBounds))
      ensures WF(r) && Owns(r, p, others) && Withdrawn(pending, old(pending))
      ensures !PruneCondition(m, v) ==> pending == old(pending)
      ensures progress == old(progress) - Count(m) + Count(r)
      ensures recycled == old(recycled) && redraws == old(redraws)
    {
      r := m;
      var prune := !ThresholdHit(m, v.zoom) && GetBitmap(m).Some?;
      if !prune {
        var visible;
        r, visible := CheckVisible(m, v);
        prune := !visible;
      }
      if prune {
        r := RecycleChildren(r, p, others);
      }
    }
 
    // ------------------------------------------------------------ traversals

    /** `stopDecoding`: after refreshing the children, every decode request
        of the subtree is withdrawn, children before the node itself; the
        bitmaps stay where they are. */
    method StopDecoding(n: Node, p: Path, v: View, ghost others: set<Path>) returns (r: Node)
      requires WF(n) && Owns(n, p, others)
      modifies this`progress, this`pending, this`recycled, this`redraws
      ensures r == AfterStopDecoding(n, v)
      ensures WF(r) && Owns(r, p, others) && Withdrawn(pending, old(pending))
      ensures progress == old(progress) - Count(n) + Count(r)
      ensures recycled == old(recycled) && redraws == old(redraws)
      decreases Levels(n.threshold, v.zoom), Size(n), 2
    {
      var m := InvalidateChildren(n, p, v, others);
      r := StopDecodingChildren(m, p, v, others, n);
      StopDecodingLevel(n, v, m, r.children);
      r := StopDecodingThisNode(r, p, others);
    }

    /** The loop of `stopDecoding` over the children of `m`, where `m` is
        `n` after `invalidateChildren`. */
    method StopDecodingChildren(m: Node, p: Path, v: View, ghost others: set<Path>, ghost n: Node)
      returns (r: Node)
      requires WF(m) && Owns(m, p, others) && n.threshold > 0.0
      requires forall i :: 0 <= i < |m.children| ==> Below(m.children[i], n, v.zoom)
      modifies this`progress, this`pending, this`recycled, this`redraws
      ensures WF(r) && r == m.(children := r.children) && |r.children| == |m.children|
      ensures forall j :: 0 <= j < |r.children| ==> r.children[j] == AfterStopDecoding(m.children[j], v)
      ensures Owns(r, p, others) && Withdrawn(pending, old(pending))
      ensures progress == old(progress) - Count(m) + Count(r)
      ensures recycled == old(recycled) && redraws == old(redraws)
      decreases Levels(n.threshold, v.zoom), Size(n), 1
    {
      r := m;
      for i := 0 to |m.children|
        invariant WF(r) && r == m.(children := r.children) && |r.children| == |m.children|
        invariant forall j :: 0 <= j < i ==> r.children[j] == AfterStopDecoding(m.children[j], v)
        invariant forall j :: i <= j < |r.children| ==> r.children[j] == m.children[j]
        invariant Owns(r, p, others) && Withdrawn(pending, old(pending))
        invariant progress == old(progress) - Count(m) + Count(r)
        invariant recycled == old(recycled) && redraws == old(redraws)
      {
        ghost var q := r;
        r := StopDecodingChild(r, i, p, v, others, n);
        StoppedChildStep(m, q, r, i, v);
      }
    }

    /** One turn of that loop: child `i` of `m` is treated. */
    method StopDecodingChild(m: Node, i: nat, p: Path, v: View, ghost others: set<Path>, ghost n: Node)
      returns (r: Node)
      requires WF(m) && Owns(m, p, others) && n.threshold > 0.0 && i < |m.children|
      requires Below(m.children[i], n, v.zoom)
      modifies this`progress, this`pending, this`recycled, this`redraws
      ensures WF(r) && |r.children| == |m.children| && r == m.(children := m.children[i := r.children[i]])
      ensures r.children[i] == AfterStopDecoding(m.children[i], v)
      ensures Owns(r, p, others) && Withdrawn(pending, old(pending))
      ensures progress == old(progress) - Count(m) + Count(r)
      ensures recycled == old(recycled) && redraws == old(redraws)
      decreases Levels(n.threshold, v.zoom), Size(n), 0
    {
      ghost var sib := Siblings(m, p, i);
      SiblingsFrame(m, p, i, others);
      var c := StopDecoding(m.children[i], p + [i], v, others + sib);
      SiblingsUpdate(m, p, i, c);
      ChildUpdateWF(m, i, c);
      r := m.(children := m.children[i := c]);
      assert Owns(r, p, others) by {
        SiblingsBack(pending.Keys, others, m, p, i, c);
      }
    }
 
    /** `removeInvisibleBitmaps`: after refreshing the children and
        treating them, a node that is invisible or hidden by its children
        drops its strong bitmap. */
    method RemoveInvisibleBitmaps(n: Node, p: Path, v: View, ghost others: set<Path>) returns (r: Node)
      requires WF(n) && Owns(n, p, others)
      modifies this`progress, this`pending, this`recycled, this`redraws
      ensures r == AfterRemoveInvisibleBitmaps(n, v)
      ensures WF(r) && Owns(r, p, others) && Withdrawn(pending, old(pending))
      ensures progress == old(progress) - Count(n) + Count(r)
      ensures recycled == old(recycled) && redraws == old(redraws)
      decreases Levels(n.threshold, v.zoom), Size(n), 2
    {
      var m := InvalidateChildren(n, p, v, others);
      r := RemoveInvisibleBitmapsChildren(m, p, v, others, n);
      RemoveInvisibleBitmapsLevel(n, v, m, r.children);
      r := DropUnseenBitmap(r, p, v, others);
    }

    /** The end of `removeInvisibleBitmaps` at one node: the strong
        reference goes unless the node is visible and not hidden by its
        children. */
    method DropUnseenBitmap(m: Node, p: Path, v: View, ghost others: set<Path>) returns (r: Node)
      requires WF(m) && Owns(m, p, others)
      modifies this`recycled, this`redraws
      ensures r == m.(target := Some(TargetRect(m, v.pageBounds)),
                      bitmap := if IsVisibleAndNotHiddenByChildren(m, v) then m.bitmap else None)
      ensures WF(r) && Owns(r, p, others) && Count(r) == Count(m)
      ensures recycled == old(recycled) && redraws == old(redraws)
    {
      var visible, hidden;
      r, visible := CheckVisible(m, v);
      hidden := CheckHiddenByChildren(r);
      if visible && !hidden {
        return;
      }
      assert WF(AfterSetBitmap(r, None)) by {
        AfterSetBitmapFacts(r, None);
      }
      r := SetBitmap(r, None);
    }

    /** The loop of `removeInvisibleBitmaps` over the children of `m`. */
    method RemoveInvisibleBitmapsChildren(m: Node, p: Path, v: View, ghost others: set<Path>, ghost n: Node)
      returns (r: Node)
      requires WF(m) && Owns(m, p, others) && n.threshold > 0.0
      requires forall i :: 0 <= i < |m.children| ==> Below(m.children[i], n, v.zoom)
      modifies this`progress, this`pending, this`recycled, this`redraws
      ensures WF(r) && r == m.(children := r.children) && |r.children| == |m.children|
      ensures forall j :: 0 <= j < |r.children| ==> r.children[j] == AfterRemoveInvisibleBitmaps(m.children[j], v)
      ensures Owns(r, p, others) && Withdrawn(pending, old(pending))
      ensures progress == old(progress) - Count(m) + Count(r)
      ensures recycled == old(recycled) && redraws == old(redraws)
      decreases Levels(n.threshold, v.zoom), Size(n), 1
    {
      r := m;
      for i := 0 to |m.children|
        invariant WF(r) && r == m.(children := r.children) && |r.children| == |m.children|
        invariant forall j :: 0 <= j < i ==> r.children[j] == AfterRemoveInvisibleBitmaps(m.children[j], v)
        invariant forall j :: i <= j < |r.children| ==> r.children[j] == m.children[j]
        invariant Owns(r, p, others) && Withdrawn(pending, old(pending))
        invariant progress == old(progress) - Count(m) + Count(r)
        invariant recycled == old(recycled) && redraws == old(redraws)
      {
        ghost var q := r;
        r := RemoveInvisibleBitmapsChild(r, i, p, v, others, n);
        RemovedChildStep(m, q, r, i, v);
      }
    }

    /** One turn of that loop: child `i` of `m` is treated. */
    method RemoveInvisibleBitmapsChild(m: Node, i: nat, p: Path, v: View, ghost others: set<Path>, ghost n: Node)
      returns (r: Node)
      requires WF(m) && Owns(m, p, others) && n.threshold > 0.0 && i < |m.children|
      requires Below(m.children[i], n, v.zoom)
      modifies this`progress, this`pending, this`recycled, this`redraws
      ensures WF(r) && |r.children| == |m.children| && r == m.(children := m.children[i := r.children[i]])
      ensures r.children[i] == AfterRemoveInvisibleBitmaps(m.children[i], v)
      ensures Owns(r, p, others) && Withdrawn(pending, old(pending))
      ensures progress == old(progress) - Count(m) + Count(r)
      ensures recycled == old(recycled) && redraws == old(redraws)
      decreases Levels(n.threshold, v.zoom), Size(n), 0
    {
      ghost var sib := Siblings(m, p, i);
      SiblingsFrame(m, p, i, others);
      var c := RemoveInvisibleBitmaps(m.children[i], p + [i], v, others + sib);
      SiblingsUpdate(m, p, i, c);
      ChildUpdateWF(m, i, c);
      r := m.(children := m.children[i := c]);
      assert Owns(r, p, others) by {
        SiblingsBack(pending.Keys, others, m, p, i, c);
      }
    }

    /** `stopDecodingInvisibleNodes`: after refreshing the children and
        treating them, a node that is invisible or hidden by its children
        withdraws its own decode request. */
    method StopDecodingInvisibleNodes(n: Node, p: Path, v: View, ghost others: set<Path>) returns (r: Node)
      requires WF(n) && Owns(n, p, others)
      modifies this`progress, this`pending, this`recycled, this`redraws
      ensures r == AfterStopDecodingInvisible(n, v)
      ensures WF(r) && Owns(r, p, others) && Withdrawn(pending, old(pending))
      ensures progress == old(progress) - Count(n) + Count(r)
      ensures recycled == old(recycled) && redraws == old(redraws)
      decreases Levels(n.threshold, v.zoom), Size(n), 2
    {
      var m := InvalidateChildren(n, p, v, others);
      r := StopDecodingInvisibleChildren(m, p, v, others, n);
      StopDecodingInvisibleLevel(n, v, m, r.children);
      r := StopUnseenDecode(r, p, v, others);
    }

    /** The end of `stopDecodingInvisibleNodes` at one node: its decode is
        cancelled unless the node is visible and not hidden by its children. */
    method StopUnseenDecode(m: Node, p: Path, v: View, ghost others: set<Path>) returns (r: Node)
      requires WF(m) && Owns(m, p, others)
      modifies this`progress, this`pending
      ensures r == m.(target := Some(TargetRect(m, v.pageBounds)),
                      decoding := if IsVisibleAndNotHiddenByChildren(m, v) then m.decoding else false)
      ensures WF(r) && Owns(r, p, others) && Withdrawn(pending, old(pending))
      ensures progress == old(progress) - Count(m) + Count(r)
    {
      var visible, hidden;
      r, visible := CheckVisible(m, v);
      hidden := CheckHiddenByChildren(r);
      if visible && !hidden {
        return;
      }
      r := StopDecodingThisNode(r, p, others);
    }

    /** The loop of `stopDecodingInvisibleNodes` over the children of `m`. */
    method StopDecodingInvisibleChildren(m: Node, p: Path, v: View, ghost others: set<Path>, ghost n: Node)
      returns (r: Node)
      requires WF(m) && Owns(m, p, others) && n.threshold > 0.0
      requires forall i :: 0 <= i < |m.children| ==> Below(m.children[i], n, v.zoom)
      modifies this`progress, this`pending, this`recycled, this`redraws
      ensures WF(r) && r == m.(children := r.children) && |r.children| == |m.children|
      ensures forall j :: 0 <= j < |r.children| ==> r.children[j] == AfterStopDecodingInvisible(m.children[j], v)
      ensures Owns(r, p, others) && Withdrawn(pending, old(pending))
      ensures progress == old(progress) - Count(m) + Count(r)
      ensures recycled == old(recycled) && redraws == old(redraws)
      decreases Levels(n.threshold, v.zoom), Size(n), 1
    {
      r := m;
      for i := 0 to |m.children|
        invariant WF(r) && r == m.(children := r.children) && |r.children| == |m.children|
        invariant forall j :: 0 <= j < i ==> r.children[j] == AfterStopDecodingInvisible(m.children[j], v)
        invariant forall j :: i <= j < |r.children| ==> r.children[j] == m.children[j]
        invariant Owns(r, p, others) && Withdrawn(pending, old(pending))
        invariant progress == old(progress) - Count(m) + Count(r)
        invariant recycled == old(recycled) && redraws == old(redraws)
      {
        ghost var q := r;
        r := StopDecodingInvisibleChild(r, i, p, v, others, n);
        StoppedInvisibleChildStep(m, q, r, i, v);
      }
    }

    /** One turn of that loop: child `i` of `m` is treated. */
    method StopDecodingInvisibleChild(m: Node, i: nat, p: Path, v: View, ghost others: set<Path>, ghost n: Node)
      returns (r: Node)
      requires WF(m) && Owns(m, p, others) && n.threshold > 0.0 && i < |m.children|
      requires Below(m.children[i], n, v.zoom)
      modifies this`progress, this`pending, this`recycled, this`redraws
      ensures WF(r) && |r.children| == |m.children| && r == m.(children := m.children[i := r.children[i]])
      ensures r.children[i] == AfterStopDecodingInvisible(m.children[i], v)
      ensures Owns(r, p, others) && Withdrawn(pending, old(pending))
      ensures progress == old(progress) - Count(m) + Count(r)
      ensures recycled == old(recycled) && redraws == old(redraws)
      decreases Levels(n.threshold, v.zoom), Size(n), 0
    {
      ghost var sib := Siblings(m, p, i);
      SiblingsFrame(m, p, i, others);
      var c := StopDecodingInvisibleNodes(m.children[i], p + [i], v, others + sib);
      SiblingsUpdate(m, p, i, c);
      ChildUpdateWF(m, i, c);
      r := m.(children := m.children[i := c]);
      assert Owns(r, p, others) by {
        SiblingsBack(pending.Keys, others, m, p, i, c);
      }
    }

    /** `startDecodingVisibleNodes`: an invisible node is left alone; a
        visible node refreshes its children, then at or above its threshold
        treats its four children, and below it either holds again the bitmap
        its soft reference still yields (unless a forced invalidation was
        asked for) or asks for a decode. */
    method StartDecodingVisibleNodes(n: Node, p: Path, v: View, invalidate: bool, ghost others: set<Path>)
      returns (r: Node)
      requires WF(n) && Owns(n, p, others)
      modifies this`progress, this`pending, this`recycled, this`redraws
      ensures r == AfterStartDecoding(n, v, invalidate)
      ensures WF(r) && Owns(r, p, others) && Refreshed(pending, old(pending), v.zoom, n.slice, p)
      ensures !IsVisible(n, v) ==> pending == old(pending) && progress == old(progress)
      ensures IsVisible(n, v) && !ThresholdHit(n, v.zoom) && GetBitmap(n).Some? && !invalidate ==>
        Withdrawn(pending, old(pending))
      ensures IsVisible(n, v) && !ThresholdHit(n, v.zoom) && !(GetBitmap(n).Some? && !invalidate) ==>
        p in pending && (!n.decoding ==> pending[p] == DecodeRequest(v.zoom, n.slice))
      ensures progress == old(progress) - Count(n) + Count(r)
      ensures recycled == old(recycled) && redraws == old(redraws) + Restores(n, v, invalidate)
      decreases Levels(n.threshold, v.zoom), Size(n), 3
    {
      var visible;
      r, visible := CheckVisible(n, v);
      if visible {
        r := StartDecodingVisibleNode(r, p, v, invalidate, others);
      }
    }

    /** The part of `startDecodingVisibleNodes` after the visibility check
        passed, for a node whose target rectangle is memoized. */
    method StartDecodingVisibleNode(n: Node, p: Path, v: View, invalidate: bool, ghost others: set<Path>)
      returns (r: Node)
      requires WF(n) && Owns(n, p, others) && IsVisible(n, v) && n.target.Some?
      modifies this`progress, this`pending, this`recycled, this`redraws
      ensures r == AfterStartVisible(n, v, invalidate)
      ensures WF(r) && Owns(r, p, others) && Refreshed(pending, old(pending), v.zoom, n.slice, p)
      ensures !ThresholdHit(n, v.zoom) && GetBitmap(n).Some? && !invalidate ==>
        Withdrawn(pending, old(pending))
      ensures !ThresholdHit(n, v.zoom) && !(GetBitmap(n).Some? && !invalidate) ==>
        p in pending && (!n.decoding ==> pending[p] == DecodeRequest(v.zoom, n.slice))
      ensures progress == old(progress) - Count(n) + Count(r)
      ensures recycled == old(recycled) && redraws == old(redraws) + RestoresVisible(n, v, invalidate)
      decreases Levels(n.threshold, v.zoom), Size(n), 2
    {
      var m := InvalidateChildren(n, p, v, others);
      if ThresholdHit(m, v.zoom) {
        r := StartDecodingVisibleChildren(m, p, v, invalidate, others, n);
        StartVisibleLevel(n, v, invalidate, m, r.children);
      } else {
        r := RestoreOrDecode(m, p, v, invalidate, others);
        assert Refreshed(pending, old(pending), v.zoom, n.slice, p) by {
          OwnPath(n, p);
          assert p !in others by {
            assert Prefix(p, p);
          }
        }
      }
    }

    /** The end of `startDecodingVisibleNodes` at a visible node below its
        threshold: the bitmap the soft reference still yields is held again
        unless a forced invalidation was asked for; otherwise a decode is
        asked for. */
    method RestoreOrDecode(m: Node, p: Path, v: View, invalidate: bool, ghost others: set<Path>)
      returns (r: Node)
      requires WF(m) && Owns(m, p, others) && IsVisible(m, v) && !ThresholdHit(m, v.zoom)
      modifies this`progress, this`pending, this`recycled, this`redraws
      ensures WF(r) && IsVisible(r, v) && Served(r, v, invalidate)
      ensures GetBitmap(m).Some? && !invalidate ==>
        r == m.(bitmap := m.soft) && pending == old(pending)
      ensures !(GetBitmap(m).Some? && !invalidate) ==>
        r == m.(decoding := true) &&
        pending == if m.decoding then old(pending) else old(pending)[p := DecodeRequest(v.zoom, m.slice)]
      ensures Owns(r, p, others) && Refreshed(pending, old(pending), v.zoom, m.slice, p)
      ensures progress == old(progress) - Count(m) + Count(r)
      ensures recycled == old(recycled)
      ensures redraws == old(redraws) + (if GetBitmap(m).Some? && !invalidate && m.bitmap.None? then 1 else 0)
    {
      if GetBitmap(m).Some? && !invalidate {
        r := RestoreBitmapReference(m);
        assert Paths(r, p) == Paths(m, p) && Count(r) == Count(m);
      } else {
        r := DecodePageTreeNode(m, p, v.zoom, others);
        OwnPath(r, p);
      }
    }

    /** The loop of `startDecodingVisibleNodes` over the four children of
        `m`. */
    method StartDecodingVisibleChildren(m: Node, p: Path, v: View, invalidate: bool,
                                        ghost others: set<Path>, ghost n: Node)
      returns (r: Node)
      requires WF(m) && Owns(m, p, others) && n.threshold > 0.0
      requires forall i :: 0 <= i < |m.children| ==> Below(m.children[i], n, v.zoom)
      modifies this`progress, this`pending, this`recycled, this`redraws
      ensures WF(r) && r == m.(children := r.children) && |r.children| == |m.children|
      ensures forall j :: 0 <= j < |r.children| ==>
        r.children[j] == AfterStartDecoding(m.children[j], v, invalidate)
      ensures Owns(r, p, others) && Refreshed(pending, old(pending), v.zoom, m.slice, p)
      ensures progress == old(progress) - Count(m) + Count(r)
      ensures recycled == old(recycled) &&
              redraws == old(redraws) + ChildRestores(m, v, invalidate, |m.children|, n)
      decreases Levels(n.threshold, v.zoom), Size(n), 1
    {
      r := m;
      for i := 0 to |m.children|
        invariant WF(r) && r == m.(children := r.children) && |r.children| == |m.children|
        invariant forall j :: 0 <= j < i ==> r.children[j] == AfterStartDecoding(m.children[j], v, invalidate)
        invariant forall j :: i <= j < |r.children| ==> r.children[j] == m.children[j]
        invariant Owns(r, p, others)
        invariant Refreshed(pending, old(pending), v.zoom, m.slice, p) && WithdrawnBelow(pending, old(pending), p, i)
        invariant progress == old(progress) - Count(m) + Count(r)
        invariant recycled == old(recycled) && redraws == old(redraws) + ChildRestores(m, v, invalidate, i, n)
      {
        ghost var q := r;
        r := StartDecodingVisibleChild(r, i, p, v, invalidate, others, n, m, old(redraws), old(pending));
        StartedChildStep(m, q, r, i, v, invalidate);
      }
    }

    /** One turn of that loop: child `i` of `m` is treated. The redraw
        counter, which stood at `base` plus the redraws of the first `i`
        children of the loop's node `m0`, moves on by those of child `i`; the
        requests, refreshed since `pending0` by the first `i` children, are
        refreshed by child `i` too. */
    method StartDecodingVisibleChild(m: Node, i: nat, p: Path, v: View, invalidate: bool,
                                     ghost others: set<Path>, ghost n: Node, ghost m0: Node, ghost base: int,
                                     ghost pending0: map<Path, DecodeRequest>)
      returns (r: Node)
      requires WF(m) && Owns(m, p, others) && n.threshold > 0.0 && i < |m.children|
      requires Below(m.children[i], n, v.zoom)
      requires WF(m0) && |m0.children| == |m.children| && m0.children[i] == m.children[i]
      requires redraws == base + ChildRestores(m0, v, invalidate, i, n)
      requires Refreshed(pending, pending0, v.zoom, m.slice, p) && WithdrawnBelow(pending, pending0, p, i)
      modifies this`progress, this`pending, this`recycled, this`redraws
      ensures WF(r) && |r.children| == |m.children| && r == m.(children := m.children[i := r.children[i]])
      ensures r.children[i] == AfterStartDecoding(m.children[i], v, invalidate)
      ensures Owns(r, p, others)
      ensures Refreshed(pending, pending0, v.zoom, m.slice, p) && WithdrawnBelow(pending, pending0, p, i + 1)
      ensures progress == old(progress) - Count(m) + Count(r)
      ensures recycled == old(recycled) && redraws == base + ChildRestores(m0, v, invalidate, i + 1, n)
      decreases Levels(n.threshold, v.zoom), Size(n), 0
    {
      ChildRestoresStep(m0, v, invalidate, i, n);
      ghost var sib := Siblings(m, p, i);
      SiblingsFrame(m, p, i, others);
      ghost var pre := pending;
      var c := StartDecodingVisibleNodes(m.children[i], p + [i], v, invalidate, others + sib);
      SiblingsUpdate(m, p, i, c);
      ChildUpdateWF(m, i, c);
      r := m.(children := m.children[i := c]);
      assert Owns(r, p, others) by {
        SiblingsBack(pending.Keys, others, m, p, i, c);
      }
      assert Refreshed(pending, pending0, v.zoom, m.slice, p) && WithdrawnBelow(pending, pending0, p, i + 1) by {
        ChildKeysChange(pre.Keys, pending.Keys, others + sib, m.children[i], c, p, i);
        RefreshedStep(pending0, pre, pending, v.zoom, m.slice, p, i);
      }
    }

    // ------------------------------------------------------------ queries with loops

    /** `isHiddenByChildren`: the node has children and each of them still
        yields a bitmap. */
    method CheckHiddenByChildren(n: Node) returns (hidden: bool)
      ensures hidden == IsHiddenByChildren(n)
    {
      if |n.children| == 0 {
        return false;
      }
      for i := 0 to |n.children|
        invariant forall j :: 0 <= j < i ==> GetBitmap(n.children[j]).Some?
      {
        if GetBitmap(n.children[i]).None? {
          return false;
        }
      }
      return true;
    }
 
    /** `containsBitmaps`: the node or one of its descendants still yields a
        bitmap. */
    method CheckContainsBitmaps(n: Node) returns (b: bool)
      ensures b == ContainsBitmaps(n)
      decreases n, 1
    {
      if GetBitmap(n).Some? {
        return true;
      }
      b := CheckChildrenContainBitmaps(n);
    }

    /** `childrenContainBitmaps`: one of the children contains a bitmap; the
        children are asked in order and the first yes answers. */
    method CheckChildrenContainBitmaps(n: Node) returns (b: bool)
      ensures b == ChildrenContainBitmaps(n)
      decreases n, 0
    {
      for i := 0 to |n.children|
        invariant forall j :: 0 <= j < i ==> !ContainsBitmaps(n.children[j])
      {
        var c := CheckContainsBitmaps(n.children[i]);
        if c {
          return true;
        }
      }
      return false;
    }

    // ------------------------------------------------------------ page bounds

    /** `invalidateNodeBounds`: every memoized target rectangle of the
        subtree is forgotten, so the next visibility check maps the slices
        through the current page bounds. */
    method InvalidateNodeBounds(n: Node) returns (r: Node)
      ensures r == ClearedTargets(n)
      decreases n
    {
      r := n.(target := None);
      for i := 0 to |n.children|
        invariant r == n.(target := None, children := r.children) && |r.children| == |n.children|
        invariant forall j :: 0 <= j < i ==> r.children[j] == ClearedTargets(n.children[j])
        invariant forall j :: i <= j < |r.children| ==> r.children[j] == n.children[j]
      {
        var c := InvalidateNodeBounds(r.children[i]);
        r := r.(children := r.children[i := c]);
      }
    }

    // ------------------------------------------------------------ the page's calls

    /** The page starts decoding what it shows: every visible path ends in
        four children above the threshold, and below it in a node that is
        decoding or holds its bitmap. */
    method StartDecodingPage(v: View, invalidate: bool)
      requires Valid()
      modifies this`root, this`progress, this`pending, this`recycled, this`redraws
      ensures Valid()
      ensures root == AfterStartDecoding(old(root), v, invalidate) && Served(root, v, invalidate)
      ensures Refreshed(pending, old(pending), v.zoom, root.slice, [])
      ensures forall q :: q in pending && q !in old(pending) ==>
        ValidPath(root, q) && pending[q] == DecodeRequest(v.zoom, At(root, q).slice)
      ensures recycled == old(recycled) && redraws == old(redraws) + Restores(old(root), v, invalidate)
    {
      assert Served(AfterStartDecoding(root, v, invalidate), v, invalidate) by {
        StartedServed(root, v, invalidate);
      }
      ghost var n, before, progress0 := root, pending, progress;
      var r := StartDecodingVisibleNodes(root, [], v, invalidate, {});
      assert WF(r) && progress == baseProgress + Count(r) && pending.Keys == Paths(r, []) &&
             (forall q :: q in pending ==> pending[q].slice == PathSlice(r.slice, q)) && r.slice == n.slice &&
             forall q :: q in pending && q !in before ==>
               ValidPath(r, q) && pending[q] == DecodeRequest(v.zoom, At(r, q).slice) by {
        StartedPage(n, r, progress0, progress, baseProgress, before, pending, v, invalidate);
      }
      root := r;
    }

    /** The page stops decoding: no node is decoding, the decode service
        holds no request of the page and the progress counter is back at its
        base. */
    method StopDecodingPage(v: View)
      requires Valid()
      modifies this`root, this`progress, this`pending, this`recycled, this`redraws
      ensures Valid()
      ensures root == AfterStopDecoding(old(root), v)
      ensures NoneDecoding(root) && pending == map[] && progress == baseProgress
      ensures recycled == old(recycled) && redraws == old(redraws)
    {
      StoppedFacts(root, v, []);
      root := StopDecoding(root, [], v, {});
      assert pending == map[] by {
        assert pending.Keys == {};
      }
    }

    /** The page drops the strong bitmaps of nodes it does not show. */
    method RemoveInvisibleBitmapsPage(v: View)
      requires Valid()
      modifies this`root, this`progress, this`pending, this`recycled, this`redraws
      ensures Valid()
      ensures root == AfterRemoveInvisibleBitmaps(old(root), v) && Released(root, v)
      ensures Withdrawn(pending, old(pending))
      ensures recycled == old(recycled) && redraws == old(redraws)
    {
      RemovedFacts(root, v);
      root := RemoveInvisibleBitmaps(root, [], v, {});
    }

    /** The page cancels the decodes of nodes it does not show. */
    method StopDecodingInvisibleNodesPage(v: View)
      requires Valid()
      modifies this`root, this`progress, this`pending, this`recycled, this`redraws
      ensures Valid()
      ensures root == AfterStopDecodingInvisible(old(root), v) && Quiet(root, v)
      ensures Withdrawn(pending, old(pending))
      ensures recycled == old(recycled) && redraws == old(redraws)
    {
      StoppedInvisibleFacts(root, v);
      root := StopDecodingInvisibleNodes(root, [], v, {});
    }

    /** The page's bounds changed: every memo is forgotten and nothing else. */
    method InvalidateNodeBoundsPage()
      requires Valid()
      modifies this`root
      ensures Valid()
      ensures root == ClearedTargets(old(root)) && NoTargets(root)
    {
      var r := InvalidateNodeBounds(root);
      assert WF(r) && Count(r) == Count(root) && Paths(r, []) == Paths(root, []) && NoTargets(r) by {
        ClearedFacts(root, [], Rect(0.0, 0.0, 0.0, 0.0));
      }
      root := r;
    }

    // ------------------------------------------------------------ the decode service's calls

    /** The decode service delivers the result of the request of the node at
        `p`: the request is gone, the node takes the bitmap, stops decoding,
        the page's aspect ratio is updated and the node's children are
        refreshed at the view of that moment. A result for a node with no
        outstanding request changes nothing. */
    method DecodeComplete(p: Path, result: Option<Bitmap>, v: View)
      requires Valid()
      modifies this`root, this`progress, this`pending, this`recycled, this`redraws, this`aspectUpdates
      ensures Valid()
      ensures p !in old(pending) ==>
        root == old(root) && pending == old(pending) && progress == old(progress) &&
        redraws == old(redraws) && recycled == old(recycled) && aspectUpdates == old(aspectUpdates)
      ensures p in old(pending) ==>
        ValidPath(old(root), p) && ValidPath(root, p) && p !in pending &&
        Withdrawn(pending, old(pending)) && aspectUpdates == old(aspectUpdates) + 1 &&
        root == Replace(old(root), p, At(root, p)) &&
        At(root, p) == Invalidated(AfterSetBitmap(At(old(root), p), result).(decoding := false), v)
      ensures p in old(pending) ==>
        var n := At(old(root), p);
        if result.Some? && !IsSentinel(result.value) && result != n.bitmap then
          redraws == old(redraws) + 1 &&
          recycled == old(recycled) + (if n.bitmap.Some? then [n.bitmap.value] else [])
        else
          recycled == old(recycled) && redraws == old(redraws)
    {
      if p !in pending {
        return;
      }
      PathsValid(root, [], p);
      assert p[0..] == p;
      WFAt(root, p);
      SubtreeOthers(root, p);
      var m := CompleteNode(At(root, p), p, result, v, Paths(root, []) - Paths(At(root, p), p));
      WFReplace(root, p, m);
      CountReplace(root, p, m);
      PathsReplace(root, [], p, m);
      assert [] + p == p;
      root := Replace(root, p, m);
    }

    /** The callback of `decodePageTreeNode` run on the node `n` at `p`,
        whose request the decode service has just delivered. */
    method CompleteNode(n: Node, p: Path, result: Option<Bitmap>, v: View, ghost others: set<Path>)
      returns (r: Node)
      requires WF(n) && n.decoding && Owns(n, p, others)
      modifies this`progress, this`pending, this`recycled, this`redraws, this`aspectUpdates
      ensures WF(r) && r.slice == n.slice && r.threshold == n.threshold
      ensures r == Invalidated(AfterSetBitmap(n, result).(decoding := false), v)
      ensures p !in pending && Owns(r, p, others) && Withdrawn(pending, old(pending))
      ensures progress == old(progress) - Count(n) + Count(r)
      ensures result.Some? && !IsSentinel(result.value) && result != n.bitmap ==>
        redraws == old(redraws) + 1 &&
        recycled == old(recycled) + (if n.bitmap.Some? then [n.bitmap.value] else [])
      ensures !(result.Some? && !IsSentinel(result.value) && result != n.bitmap) ==>
        recycled == old(recycled) && redraws == old(redraws)
      ensures aspectUpdates == old(aspectUpdates) + 1
    {
      OwnPath(n, p);
      assert p !in others by {
        assert Prefix(p, p);
      }
      r := SetBitmap(n, result);
      AfterSetBitmapFacts(n, result);
      pending := pending - {p};
      r := SetDecodingNow(r, false);
      OwnPath(r, p);
      aspectUpdates := aspectUpdates + 1;
      r := InvalidateChildren(r, p, v, others);
      OwnPath(r, p);
    }

    /** The collector clears the soft reference of the node at `p`, which it
        may do only while the node holds no strong reference. */
    method Reclaim(p: Path)
      requires Valid()
      modifies this`root
      ensures Valid()
      ensures ValidPath(old(root), p) && At(old(root), p).bitmap.None? ==>
        ValidPath(root, p) && root == Replace(old(root), p, At(old(root), p).(soft := None))
      ensures !(ValidPath(old(root), p) && At(old(root), p).bitmap.None?) ==> root == old(root)
    {
      if ValidPath(root, p) && At(root, p).bitmap.None? {
        var n := At(root, p);
        var m := n.(soft := None);
        var r := Replace(root, p, m);
        assert WF(r) && ValidPath(r, p) by {
          WFAt(root, p);
          WFReplace(root, p, m);
        }
        assert Count(r) == Count(root) by {
          CountReplace(root, p, m);
        }
        assert Paths(r, []) == Paths(root, []) by {
          PathsReplace(root, [], p, m);
          assert [] + p == p;
          assert Paths(m, p) == Paths(n, p);
          SubtreeOthers(root, p);
        }
        root := r;
      }
    }
  }
}
