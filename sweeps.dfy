/** The four recursive traversals of a `PageTreeNode` as functions on node
    values: what `stopDecoding`, `removeInvisibleBitmaps`,
    `stopDecodingInvisibleNodes` and `startDecodingVisibleNodes` leave of a
    subtree, and what each guarantees about it. Each follows the Java
    method: refresh the children, treat them in order, then treat the node. */
module Sweeps {
  import opened Wrappers
  import opened Tiles
  import opened TileFacts

  // ---------------------------------------------------------------- the sweeps

  /** The subtree after `stopDecoding()`: refreshed, every child treated,
      then the node itself cancelled. What it keeps and what it clears is
      proved in `StoppedFacts` and `StoppedNoneDecoding`. */
  ghost function AfterStopDecoding(n: Node, v: View): Node
    requires WF(n)
    decreases Levels(n.threshold, v.zoom), Size(n)
  {
    var m := Invalidated(n, v);
    InvalidatedBelow(n, v);
    InvalidatedWF(n, v);
    m.(decoding := false,
       children := seq(|m.children|, i requires 0 <= i < |m.children| =>
                       AfterStopDecoding(m.children[i], v)))
  }

  /** The subtree after `removeInvisibleBitmaps()`: refreshed, every child
      treated, then the node's strong bitmap dropped unless the node is
      visible and not hidden by its children. Its meaning is proved in
      `RemovedFacts`, `RemovedReleased` and `SeenKeepsBitmap`. */
  ghost function AfterRemoveInvisibleBitmaps(n: Node, v: View): Node
    requires WF(n)
    decreases Levels(n.threshold, v.zoom), Size(n)
  {
    var m := Invalidated(n, v);
    InvalidatedBelow(n, v);
    InvalidatedWF(n, v);
    var c := m.(children := seq(|m.children|, i requires 0 <= i < |m.children| =>
                                AfterRemoveInvisibleBitmaps(m.children[i], v)));
    c.(target := Some(TargetRect(c, v.pageBounds)),
       bitmap := if IsVisibleAndNotHiddenByChildren(c, v) then c.bitmap else None)
  }

  /** The subtree after `stopDecodingInvisibleNodes()`: refreshed, every
      child treated, then the node cancelled unless it is visible and not
      hidden by its children. Its meaning is proved in
      `StoppedInvisibleFacts`, `StoppedInvisibleQuiet` and
      `SeenKeepsDecoding`. */
  ghost function AfterStopDecodingInvisible(n: Node, v: View): Node
    requires WF(n)
    decreases Levels(n.threshold, v.zoom), Size(n)
  {
    var m := Invalidated(n, v);
    InvalidatedBelow(n, v);
    InvalidatedWF(n, v);
    var c := m.(children := seq(|m.children|, i requires 0 <= i < |m.children| =>
                                AfterStopDecodingInvisible(m.children[i], v)));
    c.(target := Some(TargetRect(c, v.pageBounds)),
       decoding := if IsVisibleAndNotHiddenByChildren(c, v) then c.decoding else false)
  }

  /** The subtree after `startDecodingVisibleNodes(invalidate)`: the
      visibility check fills the memo, and only a visible node goes on.
      `StartedServed` proves every visible path of the result served. */
  ghost function AfterStartDecoding(n: Node, v: View, invalidate: bool): Node
    requires WF(n)
    decreases Levels(n.threshold, v.zoom), Size(n), 1
  {
    var t := n.(target := Some(TargetRect(n, v.pageBounds)));
    assert Size(t) == Size(n);
    if IsVisible(n, v) then AfterStartVisible(t, v, invalidate) else t
  }

  /** The part of `startDecodingVisibleNodes` after the visibility check
      passed: refresh the children, then at or above the threshold treat the
      children, and below it restore the bitmap the soft reference yields
      (unless a forced invalidation was asked for) or ask for a decode.
      `StartedVisibleServed` proves every visible path of the result
      served. */
  ghost function AfterStartVisible(n: Node, v: View, invalidate: bool): Node
    requires WF(n)
    decreases Levels(n.threshold, v.zoom), Size(n), 0
  {
    var m := Invalidated(n, v);
    InvalidatedBelow(n, v);
    InvalidatedWF(n, v);
    if ThresholdHit(m, v.zoom) then
      m.(children := seq(|m.children|, i requires 0 <= i < |m.children| =>
                         AfterStartDecoding(m.children[i], v, invalidate)))
    else if GetBitmap(m).Some? && !invalidate then m.(bitmap := m.soft)
    else m.(decoding := true)
  }

  /** `startDecodingVisibleNodes` run from the root of a page keeps the
      page's tree in agreement with its state, and every request it adds
      names a node of the new tree and asks for the slice stored on it. */
  lemma StartedPage(n: Node, r: Node, progress0: int, progress: int, base: int,
                    before: map<Path, DecodeRequest>, after: map<Path, DecodeRequest>, v: View, invalidate: bool)
    requires WF(n) && progress0 == base + Count(n) && before.Keys == Paths(n, [])
    requires forall q :: q in before ==> before[q].slice == PathSlice(n.slice, q)
    requires r == AfterStartDecoding(n, v, invalidate) && WF(r) && after.Keys == {} + Paths(r, [])
    requires progress == progress0 - Count(n) + Count(r)
    requires Refreshed(after, before, v.zoom, n.slice, [])
    ensures progress == base + Count(r) && after.Keys == Paths(r, []) && r.slice == n.slice
    ensures forall q :: q in after ==> after[q].slice == PathSlice(r.slice, q)
    ensures forall q :: q in after && q !in before ==>
      ValidPath(r, q) && after[q] == DecodeRequest(v.zoom, At(r, q).slice)
  {
    StartedSlice(n, v, invalidate);
    RefreshedSlices(after, before, v.zoom, n.slice);
    RefreshedAt(after, before, v.zoom, r);
  }

  /** `startDecodingVisibleNodes` keeps the node's slice. */
  lemma StartedSlice(n: Node, v: View, invalidate: bool)
    requires WF(n)
    ensures AfterStartDecoding(n, v, invalidate).slice == n.slice
  {
    var t := n.(target := Some(TargetRect(n, v.pageBounds)));
    if IsVisible(n, v) {
      assert AfterStartVisible(t, v, invalidate).slice == Invalidated(t, v).slice;
    }
  }

  /** The redraws `startDecodingVisibleNodes(invalidate)` asks for in the
      subtree: one per visible node below its threshold that takes back the
      bitmap its soft reference yields while holding no strong one. */
  ghost function Restores(n: Node, v: View, invalidate: bool): nat
    requires WF(n)
    decreases Levels(n.threshold, v.zoom), Size(n), 2
  {
    var t := n.(target := Some(TargetRect(n, v.pageBounds)));
    assert Size(t) == Size(n);
    if IsVisible(n, v) then RestoresVisible(t, v, invalidate) else 0
  }

  /** The same count for a node whose visibility check passed. */
  ghost function RestoresVisible(n: Node, v: View, invalidate: bool): nat
    requires WF(n)
    decreases Levels(n.threshold, v.zoom), Size(n), 1
  {
    var m := Invalidated(n, v);
    InvalidatedBelow(n, v);
    InvalidatedWF(n, v);
    if ThresholdHit(m, v.zoom) then ChildRestores(m, v, invalidate, |m.children|, n)
    else if GetBitmap(m).Some? && !invalidate && m.bitmap.None? then 1
    else 0
  }

  /** The redraws asked for by the first `k` children of `m`, which lie
      below `n`. */
  ghost function ChildRestores(m: Node, v: View, invalidate: bool, k: nat, n: Node): nat
    decreases if n.threshold > 0.0 then Levels(n.threshold, v.zoom) else 0, Size(n), 0, k
  {
    if k == 0 || k > |m.children| then 0
    else
      var c := m.children[k - 1];
      ChildRestores(m, v, invalidate, k - 1, n) +
        (if WF(c) && Below(c, n, v.zoom) then Restores(c, v, invalidate) else 0)
  }

  /** Counting one more child. */
  lemma ChildRestoresStep(m: Node, v: View, invalidate: bool, k: nat, n: Node)
    requires WF(m) && k < |m.children| && Below(m.children[k], n, v.zoom)
    ensures ChildRestores(m, v, invalidate, k + 1, n) ==
            ChildRestores(m, v, invalidate, k, n) + Restores(m.children[k], v, invalidate)
  {
  }

  // ---------------------------------------------------------------- one level at a time

  /** `AfterStopDecoding` one level down: the refreshed node with the
      treated children `cs`, cancelled. */
  lemma StopDecodingLevel(n: Node, v: View, m: Node, cs: seq<Node>)
    requires WF(n) && m == Invalidated(n, v) && WF(m) && |cs| == |m.children|
    requires forall j :: 0 <= j < |cs| ==> cs[j] == AfterStopDecoding(m.children[j], v)
    ensures AfterStopDecoding(n, v) == m.(decoding := false, children := cs)
  {
    assert AfterStopDecoding(n, v).children == cs;
  }

  /** `AfterRemoveInvisibleBitmaps` one level down. */
  lemma RemoveInvisibleBitmapsLevel(n: Node, v: View, m: Node, cs: seq<Node>)
    requires WF(n) && m == Invalidated(n, v) && WF(m) && |cs| == |m.children|
    requires forall j :: 0 <= j < |cs| ==> cs[j] == AfterRemoveInvisibleBitmaps(m.children[j], v)
    ensures var c := m.(children := cs);
      AfterRemoveInvisibleBitmaps(n, v) ==
        c.(target := Some(TargetRect(c, v.pageBounds)),
           bitmap := if IsVisibleAndNotHiddenByChildren(c, v) then c.bitmap else None)
  {
    assert AfterRemoveInvisibleBitmaps(n, v).children == cs;
  }

  /** `AfterStopDecodingInvisible` one level down. */
  lemma StopDecodingInvisibleLevel(n: Node, v: View, m: Node, cs: seq<Node>)
    requires WF(n) && m == Invalidated(n, v) && WF(m) && |cs| == |m.children|
    requires forall j :: 0 <= j < |cs| ==> cs[j] == AfterStopDecodingInvisible(m.children[j], v)
    ensures var c := m.(children := cs);
      AfterStopDecodingInvisible(n, v) ==
        c.(target := Some(TargetRect(c, v.pageBounds)),
           decoding := if IsVisibleAndNotHiddenByChildren(c, v) then c.decoding else false)
  {
    assert AfterStopDecodingInvisible(n, v).children == cs;
  }

  /** `AfterStartVisible` one level down, at or above the threshold: the
      refreshed node with the treated children `cs`, and their redraws. */
  lemma StartVisibleLevel(n: Node, v: View, invalidate: bool, m: Node, cs: seq<Node>)
    requires WF(n) && m == Invalidated(n, v) && WF(m) && ThresholdHit(m, v.zoom) && |cs| == |m.children|
    requires forall j :: 0 <= j < |cs| ==> cs[j] == AfterStartDecoding(m.children[j], v, invalidate)
    ensures AfterStartVisible(n, v, invalidate) == m.(children := cs)
  {
    assert AfterStartVisible(n, v, invalidate).children == cs;
  }

  /** The loop of `stopDecoding` one child further: `m` has the
      first `i` children of `m0` treated, and `r` is `m` with child `i`
      treated too. */
  lemma StoppedChildStep(m0: Node, m: Node, r: Node, i: nat, v: View)
    requires WF(m0) && i < |m0.children| && m == m0.(children := m.children) && |m.children| == |m0.children|
    requires forall j :: 0 <= j < i ==> m.children[j] == AfterStopDecoding(m0.children[j], v)
    requires forall j :: i <= j < |m.children| ==> m.children[j] == m0.children[j]
    requires |r.children| == |m.children| && r == m.(children := m.children[i := r.children[i]])
    requires r.children[i] == AfterStopDecoding(m.children[i], v)
    ensures r == m0.(children := r.children)
    ensures forall j :: 0 <= j < i + 1 ==> r.children[j] == AfterStopDecoding(m0.children[j], v)
    ensures forall j :: i + 1 <= j < |r.children| ==> r.children[j] == m0.children[j]
  {
    forall j | 0 <= j < i + 1
      ensures r.children[j] == AfterStopDecoding(m0.children[j], v)
    {
      if j < i {
        assert r.children[j] == m.children[j];
      }
    }
    forall j | i + 1 <= j < |r.children|
      ensures r.children[j] == m0.children[j]
    {
      assert r.children[j] == m.children[j];
    }
  }

  /** The loop of `removeInvisibleBitmaps` one child further: `m` has the
      first `i` children of `m0` treated, and `r` is `m` with child `i`
      treated too. */
  lemma RemovedChildStep(m0: Node, m: Node, r: Node, i: nat, v: View)
    requires WF(m0) && i < |m0.children| && m == m0.(children := m.children) && |m.children| == |m0.children|
    requires forall j :: 0 <= j < i ==> m.children[j] == AfterRemoveInvisibleBitmaps(m0.children[j], v)
    requires forall j :: i <= j < |m.children| ==> m.children[j] == m0.children[j]
    requires |r.children| == |m.children| && r == m.(children := m.children[i := r.children[i]])
    requires r.children[i] == AfterRemoveInvisibleBitmaps(m.children[i], v)
    ensures r == m0.(children := r.children)
    ensures forall j :: 0 <= j < i + 1 ==> r.children[j] == AfterRemoveInvisibleBitmaps(m0.children[j], v)
    ensures forall j :: i + 1 <= j < |r.children| ==> r.children[j] == m0.children[j]
  {
    forall j | 0 <= j < i + 1
      ensures r.children[j] == AfterRemoveInvisibleBitmaps(m0.children[j], v)
    {
      if j < i {
        assert r.children[j] == m.children[j];
      }
    }
    forall j | i + 1 <= j < |r.children|
      ensures r.children[j] == m0.children[j]
    {
      assert r.children[j] == m.children[j];
    }
  }

  /** The loop of `stopDecodingInvisibleNodes` one child further: `m` has the
      first `i` children of `m0` treated, and `r` is `m` with child `i`
      treated too. */
  lemma StoppedInvisibleChildStep(m0: Node, m: Node, r: Node, i: nat, v: View)
    requires WF(m0) && i < |m0.children| && m == m0.(children := m.children) && |m.children| == |m0.children|
    requires forall j :: 0 <= j < i ==> m.children[j] == AfterStopDecodingInvisible(m0.children[j], v)
    requires forall j :: i <= j < |m.children| ==> m.children[j] == m0.children[j]
    requires |r.children| == |m.children| && r == m.(children := m.children[i := r.children[i]])
    requires r.children[i] == AfterStopDecodingInvisible(m.children[i], v)
    ensures r == m0.(children := r.children)
    ensures forall j :: 0 <= j < i + 1 ==> r.children[j] == AfterStopDecodingInvisible(m0.children[j], v)
    ensures forall j :: i + 1 <= j < |r.children| ==> r.children[j] == m0.children[j]
  {
    forall j | 0 <= j < i + 1
      ensures r.children[j] == AfterStopDecodingInvisible(m0.children[j], v)
    {
      if j < i {
        assert r.children[j] == m.children[j];
      }
    }
    forall j | i + 1 <= j < |r.children|
      ensures r.children[j] == m0.children[j]
    {
      assert r.children[j] == m.children[j];
    }
  }

  /** The loop of `startDecodingVisibleNodes` one child further: `m` has the
      first `i` children of `m0` treated, and `r` is `m` with child `i`
      treated too. */
  lemma StartedChildStep(m0: Node, m: Node, r: Node, i: nat, v: View, invalidate: bool)
    requires WF(m0) && i < |m0.children| && m == m0.(children := m.children) && |m.children| == |m0.children|
    requires forall j :: 0 <= j < i ==> m.children[j] == AfterStartDecoding(m0.children[j], v, invalidate)
    requires forall j :: i <= j < |m.children| ==> m.children[j] == m0.children[j]
    requires |r.children| == |m.children| && r == m.(children := m.children[i := r.children[i]])
    requires r.children[i] == AfterStartDecoding(m.children[i], v, invalidate)
    ensures r == m0.(children := r.children)
    ensures forall j :: 0 <= j < i + 1 ==> r.children[j] == AfterStartDecoding(m0.children[j], v, invalidate)
    ensures forall j :: i + 1 <= j < |r.children| ==> r.children[j] == m0.children[j]
  {
    forall j | 0 <= j < i + 1
      ensures r.children[j] == AfterStartDecoding(m0.children[j], v, invalidate)
    {
      if j < i {
        assert r.children[j] == m.children[j];
      }
    }
    forall j | i + 1 <= j < |r.children|
      ensures r.children[j] == m0.children[j]
    {
      assert r.children[j] == m.children[j];
    }
  }

  // ---------------------------------------------------------------- what they guarantee

  /** After `stopDecoding()` no node of the subtree is decoding. */
  lemma {:induction false} StoppedNoneDecoding(n: Node, v: View)
    requires WF(n)
    ensures NoneDecoding(AfterStopDecoding(n, v))
    decreases Levels(n.threshold, v.zoom), Size(n)
  {
    var r := AfterStopDecoding(n, v);
    var m := Invalidated(n, v);
    InvalidatedBelow(n, v);
    InvalidatedWF(n, v);
    forall i | 0 <= i < |r.children|
      ensures NoneDecoding(r.children[i])
    {
      StoppedNoneDecoding(m.children[i], v);
    }
  }

  /** What `stopDecoding()` leaves at the node itself: its slice, threshold
      and bitmaps, as many children as the refresh left, and no decoding
      node, hence no request and no progress, anywhere in the subtree. */
  lemma StoppedFacts(n: Node, v: View, p: Path)
    requires WF(n)
    ensures var r := AfterStopDecoding(n, v);
      r.slice == n.slice && r.threshold == n.threshold && r.bitmap == n.bitmap && r.soft == n.soft &&
      |r.children| == |InvalidatedChildren(n, v)| &&
      NoneDecoding(r) && Count(r) == 0 && Paths(r, p) == {}
  {
    var r := AfterStopDecoding(n, v);
    StoppedNoneDecoding(n, v);
    NoneDecodingCount(r);
    NoneDecodingPaths(r, p);
  }

  /** After `removeInvisibleBitmaps()` every node that is invisible or hidden
      by its children has no strong bitmap. */
  lemma {:induction false} RemovedReleased(n: Node, v: View)
    requires WF(n)
    ensures Released(AfterRemoveInvisibleBitmaps(n, v), v)
    decreases Levels(n.threshold, v.zoom), Size(n)
  {
    var r := AfterRemoveInvisibleBitmaps(n, v);
    var m := Invalidated(n, v);
    InvalidatedBelow(n, v);
    InvalidatedWF(n, v);
    forall i | 0 <= i < |r.children|
      ensures Released(r.children[i], v)
    {
      RemovedReleased(m.children[i], v);
    }
  }

  /** What `removeInvisibleBitmaps()` leaves at the node itself: everything
      but the memo, the children and the strong bitmap is kept, the strong
      bitmap exactly when the node is visible and not hidden by its
      children, and no unseen node below holds one. */
  lemma RemovedFacts(n: Node, v: View)
    requires WF(n)
    ensures var r := AfterRemoveInvisibleBitmaps(n, v);
      r.slice == n.slice && r.threshold == n.threshold && r.soft == n.soft &&
      r.decoding == n.decoding && IsVisible(r, v) == IsVisible(n, v) &&
      r.bitmap == (if IsVisibleAndNotHiddenByChildren(r, v) then n.bitmap else None) &&
      Released(r, v)
  {
    RemovedReleased(n, v);
  }

  /** After `stopDecodingInvisibleNodes()` every node that is invisible or
      hidden by its children is not decoding. */
  lemma {:induction false} StoppedInvisibleQuiet(n: Node, v: View)
    requires WF(n)
    ensures Quiet(AfterStopDecodingInvisible(n, v), v)
    decreases Levels(n.threshold, v.zoom), Size(n)
  {
    var r := AfterStopDecodingInvisible(n, v);
    var m := Invalidated(n, v);
    InvalidatedBelow(n, v);
    InvalidatedWF(n, v);
    forall i | 0 <= i < |r.children|
      ensures Quiet(r.children[i], v)
    {
      StoppedInvisibleQuiet(m.children[i], v);
    }
  }

  /** What `stopDecodingInvisibleNodes()` leaves at the node itself:
      everything but the memo, the children and the decoding flag is kept,
      the flag exactly when the node is visible and not hidden by its
      children, and no unseen node below is decoding. */
  lemma StoppedInvisibleFacts(n: Node, v: View)
    requires WF(n)
    ensures var r := AfterStopDecodingInvisible(n, v);
      r.slice == n.slice && r.threshold == n.threshold && r.soft == n.soft &&
      r.bitmap == n.bitmap && IsVisible(r, v) == IsVisible(n, v) &&
      r.decoding == (if IsVisibleAndNotHiddenByChildren(r, v) then n.decoding else false) &&
      Quiet(r, v)
  {
    StoppedInvisibleQuiet(n, v);
  }

  /** After `startDecodingVisibleNodes()` every visible path is served. */
  lemma {:induction false} StartedServed(n: Node, v: View, invalidate: bool)
    requires WF(n)
    ensures Served(AfterStartDecoding(n, v, invalidate), v, invalidate)
    decreases Levels(n.threshold, v.zoom), Size(n), 1
  {
    var t := n.(target := Some(TargetRect(n, v.pageBounds)));
    assert Size(t) == Size(n);
    if IsVisible(n, v) {
      StartedVisibleServed(t, v, invalidate);
    }
  }

  lemma {:induction false} StartedVisibleServed(n: Node, v: View, invalidate: bool)
    requires WF(n)
    ensures Served(AfterStartVisible(n, v, invalidate), v, invalidate)
    decreases Levels(n.threshold, v.zoom), Size(n), 0
  {
    var r := AfterStartVisible(n, v, invalidate);
    var m := Invalidated(n, v);
    InvalidatedBelow(n, v);
    InvalidatedWF(n, v);
    if ThresholdHit(m, v.zoom) {
      forall i | 0 <= i < |r.children|
        ensures Served(r.children[i], v, invalidate)
      {
        StartedServed(m.children[i], v, invalidate);
      }
    }
  }

  // ---------------------------------------------------------------- what they keep

  /** Along `s` every node keeps its children through `invalidateChildren()`:
      none of them spawns or prunes. */
  ghost predicate KeptAlong(n: Node, v: View, s: Path)
    requires ValidPath(n, s)
    decreases s
  {
    s == [] || (InvalidatedChildren(n, v) == n.children && KeptAlong(n.children[s[0]], v, s[1..]))
  }

  /** `removeInvisibleBitmaps()` clears exactly the unseen nodes: a node
      reached along a path that no refresh changed keeps its strong bitmap
      when it is visible and not hidden by its children, and loses it
      otherwise. */
  lemma {:induction false} SeenKeepsBitmap(n: Node, v: View, s: Path)
    requires WF(n) && ValidPath(n, s) && KeptAlong(n, v, s)
    ensures ValidPath(AfterRemoveInvisibleBitmaps(n, v), s)
    ensures var r := At(AfterRemoveInvisibleBitmaps(n, v), s);
      r.bitmap == if IsVisibleAndNotHiddenByChildren(r, v) then At(n, s).bitmap else None
    decreases s
  {
    if s != [] {
      var r := AfterRemoveInvisibleBitmaps(n, v);
      InvalidatedWF(n, v);
      var c := n.children[s[0]];
      assert r.children[s[0]] == AfterRemoveInvisibleBitmaps(c, v);
      SeenKeepsBitmap(c, v, s[1..]);
      assert At(r, s) == At(r.children[s[0]], s[1..]);
    }
  }

  /** `stopDecodingInvisibleNodes()` cancels exactly the unseen nodes: a node
      reached along a path that no refresh changed keeps its decoding flag
      when it is visible and not hidden by its children, and is cancelled
      otherwise. */
  lemma {:induction false} SeenKeepsDecoding(n: Node, v: View, s: Path)
    requires WF(n) && ValidPath(n, s) && KeptAlong(n, v, s)
    ensures ValidPath(AfterStopDecodingInvisible(n, v), s)
    ensures var r := At(AfterStopDecodingInvisible(n, v), s);
      r.decoding == if IsVisibleAndNotHiddenByChildren(r, v) then At(n, s).decoding else false
    decreases s
  {
    if s != [] {
      var r := AfterStopDecodingInvisible(n, v);
      InvalidatedWF(n, v);
      var c := n.children[s[0]];
      assert r.children[s[0]] == AfterStopDecodingInvisible(c, v);
      SeenKeepsDecoding(c, v, s[1..]);
      assert At(r, s) == At(r.children[s[0]], s[1..]);
    }
  }
}
