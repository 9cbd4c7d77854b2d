/** Facts about the tile tree as a value: child sizes and thresholds, the
    decoding count and decoding paths under child updates and path
    replacement, what recycling leaves, and the geometry of subdivision. */
module TileFacts {
  import opened Geometry
  import opened Wrappers
  import opened Tiles

  // ---------------------------------------------------------------- sizes

  lemma {:induction false} SizeSeqElem(cs: seq<Node>, i: nat)
    requires i < |cs|
    ensures Size(cs[i]) <= SizeSeq(cs)
    decreases cs
  {
    if i < |cs| - 1 {
      SizeSeqElem(cs[..|cs| - 1], i);
    }
  }

  /** A child is a strictly smaller tree than its parent. */
  lemma SizeChild(n: Node, i: nat)
    requires i < |n.children|
    ensures Size(n.children[i]) < Size(n)
  {
    SizeSeqElem(n.children, i);
  }

  lemma {:induction false} SizeSeqPointwise(cs: seq<Node>, ds: seq<Node>)
    requires |cs| == |ds|
    requires forall i :: 0 <= i < |cs| ==> Size(cs[i]) == Size(ds[i])
    ensures SizeSeq(cs) == SizeSeq(ds)
    decreases cs
  {
    if cs != [] {
      SizeSeqPointwise(cs[..|cs| - 1], ds[..|ds| - 1]);
    }
  }

  /** A child's threshold never leaves more generations to spawn than its
      parent's, and strictly fewer once the parent's threshold is hit. */
  lemma LevelsChild(t: real, zoom: real)
    requires t > 0.0
    ensures Levels(2.0 * t, zoom) <= Levels(t, zoom)
    ensures zoom >= t ==> Levels(2.0 * t, zoom) < Levels(t, zoom)
  {
  }

  // ---------------------------------------------------------------- counts

  /** Replacing one child changes the count by the difference of the two
      children's counts. */
  lemma {:induction false} CountSeqUpdate(cs: seq<Node>, i: nat, c: Node)
    requires i < |cs|
    ensures CountSeq(cs[i := c]) == CountSeq(cs) - Count(cs[i]) + Count(c)
    decreases cs
  {
    var last := |cs| - 1;
    if i < last {
      assert cs[i := c][..last] == cs[..last][i := c];
      CountSeqUpdate(cs[..last], i, c);
    } else {
      assert cs[i := c][..last] == cs[..last];
    }
  }

  lemma {:induction false} CountSeqZero(cs: seq<Node>)
    requires forall i :: 0 <= i < |cs| ==> Count(cs[i]) == 0
    ensures CountSeq(cs) == 0
    decreases cs
  {
    if cs != [] {
      CountSeqZero(cs[..|cs| - 1]);
    }
  }

  lemma {:induction false} CountSeqElem(cs: seq<Node>, i: nat)
    requires i < |cs|
    ensures Count(cs[i]) <= CountSeq(cs)
    decreases cs
  {
    if i < |cs| - 1 {
      CountSeqElem(cs[..|cs| - 1], i);
    }
  }

  /** No node of a subtree is decoding exactly when its count is zero. */
  lemma {:induction false} NoneDecodingCount(n: Node)
    ensures NoneDecoding(n) <==> Count(n) == 0
    decreases n
  {
    forall i | 0 <= i < |n.children| {
      NoneDecodingCount(n.children[i]);
    }
    if NoneDecoding(n) {
      CountSeqZero(n.children);
    } else if !n.decoding {
      var i :| 0 <= i < |n.children| && !NoneDecoding(n.children[i]);
      CountSeqElem(n.children, i);
    }
  }

  // ---------------------------------------------------------------- paths

  lemma PrefixExtend(p: Path, j: nat, q: Path)
    requires Prefix(p + [j], q)
    ensures Prefix(p, q) && |q| > |p| && q[|p|] == j
  {
    assert q[..|p|] == q[..|p| + 1][..|p|];
    assert q[|p|] == q[..|p| + 1][|p|];
  }

  /** A path is among the children's decoding paths exactly when some child's
      subtree has it. */
  lemma {:induction false} PathsSeqMember(cs: seq<Node>, p: Path, q: Path)
    ensures q in PathsSeq(cs, p) <==>
      exists j :: 0 <= j < |cs| && q in Paths(cs[j], p + [j])
    decreases cs
  {
    if cs != [] {
      var last := |cs| - 1;
      PathsSeqMember(cs[..last], p, q);
      assert forall j :: 0 <= j < last ==> cs[..last][j] == cs[j];
    }
  }

  /** Every decoding path of the subtree at `p` extends `p`; `p` itself is
      one of them exactly when the node is decoding. */
  lemma {:induction false} PathsPrefixed(n: Node, p: Path, q: Path)
    requires q in Paths(n, p)
    ensures Prefix(p, q)
    ensures |q| == |p| ==> n.decoding
    decreases n
  {
    if !(n.decoding && q == p) {
      PathsSeqMember(n.children, p, q);
      var j :| 0 <= j < |n.children| && q in Paths(n.children[j], p + [j]);
      PathsPrefixed(n.children[j], p + [j], q);
      PrefixExtend(p, j, q);
    }
  }

  lemma ChildPathIndex(c: Node, p: Path, j: nat, q: Path)
    requires q in Paths(c, p + [j])
    ensures Prefix(p, q) && |q| > |p| && q[|p|] == j
  {
    PathsPrefixed(c, p + [j], q);
    PrefixExtend(p, j, q);
  }

  /** Requests that come or go while child `i` of the node at `p` is treated
      lie under that child. */
  lemma ChildKeysChange(pre: set<Path>, post: set<Path>, keep: set<Path>, c: Node, d: Node, p: Path, i: nat)
    requires pre == keep + Paths(c, p + [i]) && post == keep + Paths(d, p + [i])
    ensures forall q :: (q in pre) != (q in post) ==> |p| < |q| && q[|p|] == i
  {
    forall q | (q in pre) != (q in post)
      ensures |p| < |q| && q[|p|] == i
    {
      if q in Paths(c, p + [i]) {
        ChildPathIndex(c, p, i, q);
      } else {
        ChildPathIndex(d, p, i, q);
      }
    }
  }

  /** One more child treated: what it adds asks for `zoom` and the slice
      of its node, and what it withdraws lies under it, so a request
      withdrawn by an earlier child is never asked for again. */
  lemma RefreshedStep(base: map<Path, DecodeRequest>, pre: map<Path, DecodeRequest>,
                      post: map<Path, DecodeRequest>, zoom: real, s: Rect, p: Path, i: nat)
    requires i < 4
    requires Refreshed(pre, base, zoom, s, p) && WithdrawnBelow(pre, base, p, i)
    requires Refreshed(post, pre, zoom, ChildSlice(s, i), p + [i])
    requires forall q :: (q in pre) != (q in post) ==> |p| < |q| && q[|p|] == i
    ensures Refreshed(post, base, zoom, s, p) && WithdrawnBelow(post, base, p, i + 1)
  {
    forall q | q in post && q !in pre
      ensures Prefix(p, q) && post[q] == DecodeRequest(zoom, PathSlice(s, q[|p|..]))
    {
      PathSliceStep(s, p, i, q);
    }
  }

  /** Refreshing the requests of the whole tree keeps every request for
      the slice its path names. */
  lemma RefreshedSlices(after: map<Path, DecodeRequest>, before: map<Path, DecodeRequest>, zoom: real, s: Rect)
    requires Refreshed(after, before, zoom, s, [])
    requires forall q :: q in before ==> before[q].slice == PathSlice(s, q)
    ensures forall q :: q in after ==> after[q].slice == PathSlice(s, q)
  {
    forall q | q in after
      ensures after[q].slice == PathSlice(s, q)
    {
      assert q[0..] == q;
    }
  }

  /** A request the refresh of the whole tree `r` adds names a node of `r`
      and asks for the slice stored on it. */
  lemma RefreshedAt(after: map<Path, DecodeRequest>, before: map<Path, DecodeRequest>, zoom: real, r: Node)
    requires WF(r) && after.Keys == Paths(r, [])
    requires Refreshed(after, before, zoom, r.slice, [])
    ensures forall q :: q in after && q !in before ==>
      ValidPath(r, q) && after[q] == DecodeRequest(zoom, At(r, q).slice)
  {
    forall q | q in after && q !in before
      ensures ValidPath(r, q) && after[q] == DecodeRequest(zoom, At(r, q).slice)
    {
      PathsValid(r, [], q);
      assert q[0..] == q;
      PathSliceAt(r, q);
    }
  }

  /** The slice of a node below child `i` is reached through that child. */
  lemma PathSliceStep(s: Rect, p: Path, i: nat, q: Path)
    requires i < 4 && Prefix(p + [i], q)
    ensures Prefix(p, q) && PathSlice(ChildSlice(s, i), q[|p| + 1..]) == PathSlice(s, q[|p|..])
  {
    PrefixExtend(p, i, q);
    var t := q[|p|..];
    assert t[0] == i && t[1..] == q[|p| + 1..];
  }

  /** In a well-formed tree the slice stored on the node at a path is the
      slice the path names. */
  lemma {:induction false} PathSliceAt(n: Node, q: Path)
    requires WF(n) && ValidPath(n, q)
    ensures At(n, q).slice == PathSlice(n.slice, q)
    decreases q
  {
    if q != [] {
      PathSliceAt(n.children[q[0]], q[1..]);
    }
  }

  lemma OwnPath(n: Node, p: Path)
    ensures p in Paths(n, p) <==> n.decoding
  {
    if p in Paths(n, p) {
      PathsPrefixed(n, p, p);
    }
  }

  /** One decoding path per decoding node: the subtree has as many decoding
      paths as decoding nodes. */
  lemma {:induction false} PathsCount(n: Node, p: Path)
    ensures |Paths(n, p)| == Count(n)
    decreases n
  {
    PathsSeqCount(n.children, p);
    if n.decoding {
      assert p !in PathsSeq(n.children, p) by {
        if p in PathsSeq(n.children, p) {
          PathsSeqMember(n.children, p, p);
          var j :| 0 <= j < |n.children| && p in Paths(n.children[j], p + [j]);
          ChildPathIndex(n.children[j], p, j, p);
        }
      }
    }
  }

  lemma {:induction false} PathsSeqCount(cs: seq<Node>, p: Path)
    ensures |PathsSeq(cs, p)| == CountSeq(cs)
    decreases cs
  {
    if cs != [] {
      var last := |cs| - 1;
      PathsSeqCount(cs[..last], p);
      PathsCount(cs[last], p + [last]);
      PathsSeqDisjoint(cs, p);
    }
  }

  /** The decoding paths under the last child are not under any other. */
  lemma PathsSeqDisjoint(cs: seq<Node>, p: Path)
    requires cs != []
    ensures PathsSeq(cs[..|cs| - 1], p) * Paths(cs[|cs| - 1], p + [|cs| - 1]) == {}
  {
    var last := |cs| - 1;
    var a, b := PathsSeq(cs[..last], p), Paths(cs[last], p + [last]);
    forall q | q in a && q in b ensures false {
      PathsSeqMember(cs[..last], p, q);
      var j :| 0 <= j < last && q in Paths(cs[..last][j], p + [j]);
      ChildPathIndex(cs[..last][j], p, j, q);
      ChildPathIndex(cs[last], p, last, q);
    }
  }

  /** Replacing child `i` swaps its decoding paths for the new child's and
      leaves the other children's in place. */
  lemma PathsSeqUpdate(cs: seq<Node>, p: Path, i: nat, c: Node)
    requires i < |cs|
    ensures Paths(cs[i], p + [i]) <= PathsSeq(cs, p)
    ensures PathsSeq(cs[i := c], p) ==
      (PathsSeq(cs, p) - Paths(cs[i], p + [i])) + Paths(c, p + [i])
  {
    var ds := cs[i := c];
    forall q
      ensures q in PathsSeq(ds, p) <==>
        q in (PathsSeq(cs, p) - Paths(cs[i], p + [i])) + Paths(c, p + [i])
    {
      PathsSeqMember(ds, p, q);
      PathsSeqMember(cs, p, q);
      if q in PathsSeq(ds, p) {
        var j :| 0 <= j < |ds| && q in Paths(ds[j], p + [j]);
        if j != i {
          ChildPathIndex(ds[j], p, j, q);
          if q in Paths(cs[i], p + [i]) {
            ChildPathIndex(cs[i], p, i, q);
          }
        }
      }
      if q in Paths(c, p + [i]) {
        assert q in Paths(ds[i], p + [i]);
      } else if q in PathsSeq(cs, p) && q !in Paths(cs[i], p + [i]) {
        var j :| 0 <= j < |cs| && q in Paths(cs[j], p + [j]);
        assert j != i && ds[j] == cs[j];
      }
    }
    forall q | q in Paths(cs[i], p + [i]) ensures q in PathsSeq(cs, p) {
      PathsSeqMember(cs, p, q);
    }
  }

  /** The decoding paths of the subtree at `p` other than those under child
      `i`. */
  ghost function Siblings(n: Node, p: Path, i: nat): set<Path>
    requires i < |n.children|
  {
    (if n.decoding then {p} else {}) + (PathsSeq(n.children, p) - Paths(n.children[i], p + [i]))
  }

  /** Descending into child `i`: the requests outside the child's subtree are
      the outer ones and the siblings', and none of them lies under it. */
  lemma SiblingsFrame(n: Node, p: Path, i: nat, others: set<Path>)
    requires i < |n.children|
    requires Outside(others, p)
    ensures Outside(others + Siblings(n, p, i), p + [i])
    ensures others + Paths(n, p) == others + Siblings(n, p, i) + Paths(n.children[i], p + [i])
  {
    PathsSeqUpdate(n.children, p, i, n.children[i]);
    forall q | q in others + Siblings(n, p, i) ensures !Prefix(p + [i], q) {
      if Prefix(p + [i], q) {
        PrefixExtend(p, i, q);
        if q !in others && q != p {
          PathsSeqMember(n.children, p, q);
          var j :| 0 <= j < |n.children| && q in Paths(n.children[j], p + [j]);
          ChildPathIndex(n.children[j], p, j, q);
          assert false;
        }
      }
    }
  }

  lemma SiblingsUpdate(n: Node, p: Path, i: nat, c: Node)
    requires i < |n.children|
    ensures Paths(n.(children := n.children[i := c]), p) == Siblings(n, p, i) + Paths(c, p + [i])
    ensures Count(n.(children := n.children[i := c])) == Count(n) - Count(n.children[i]) + Count(c)
  {
    PathsSeqUpdate(n.children, p, i, c);
    CountSeqUpdate(n.children, i, c);
  }

  /** Back from child `i`: the requests of the outer nodes, of the siblings
      and of the new child `c` are those of the outer nodes and of the
      updated subtree. */
  lemma SiblingsBack(keys: set<Path>, others: set<Path>, n: Node, p: Path, i: nat, c: Node)
    requires i < |n.children|
    requires keys == others + Siblings(n, p, i) + Paths(c, p + [i])
    ensures keys == others + Paths(n.(children := n.children[i := c]), p)
  {
    SiblingsUpdate(n, p, i, c);
  }

  /** Replacing a child by a well-formed node over the same slice with the
      same threshold keeps the parent well formed. */
  lemma ChildUpdateWF(n: Node, i: nat, c: Node)
    requires i < |n.children| && WF(n) && WF(c)
    requires c.slice == n.children[i].slice && c.threshold == n.children[i].threshold
    ensures WF(n.(children := n.children[i := c]))
  {
  }

  /** A subtree with no decoding node has no decoding paths. */
  lemma {:induction false} NoneDecodingPaths(n: Node, p: Path)
    requires NoneDecoding(n)
    ensures Paths(n, p) == {}
    decreases n
  {
    forall q | q in Paths(n, p) ensures false {
      PathsSeqMember(n.children, p, q);
      var j :| 0 <= j < |n.children| && q in Paths(n.children[j], p + [j]);
      NoneDecodingPaths(n.children[j], p + [j]);
    }
  }

  // ---------------------------------------------------------------- recycling

  /** What `recycle()` leaves: no node decoding and no strong bitmap, while
      the soft references, and so every `containsBitmaps` answer, and the
      size are kept. */
  lemma RecycledFacts(n: Node)
    ensures NoneDecoding(Recycled(n)) && NoStrongBitmaps(Recycled(n))
    ensures ContainsBitmaps(Recycled(n)) == ContainsBitmaps(n)
    ensures ChildrenContainBitmaps(Recycled(n)) == ChildrenContainBitmaps(n)
    ensures Size(Recycled(n)) == Size(n)
  {
    RecycledQuiet(n);
    RecycledContains(n);
    RecycledSize(n);
  }

  /** A recycled subtree has no decoding node and no strong bitmap. */
  lemma {:induction false} RecycledQuiet(n: Node)
    ensures NoneDecoding(Recycled(n)) && NoStrongBitmaps(Recycled(n))
    decreases n
  {
    forall i | 0 <= i < |n.children|
      ensures NoneDecoding(Recycled(n.children[i])) && NoStrongBitmaps(Recycled(n.children[i]))
    {
      RecycledQuiet(n.children[i]);
    }
  }

  /** Recycling keeps every soft reference, so it keeps the answers of
      `containsBitmaps()` and `childrenContainBitmaps()`. */
  lemma {:induction false} RecycledContains(n: Node)
    ensures ContainsBitmaps(Recycled(n)) == ContainsBitmaps(n)
    ensures ChildrenContainBitmaps(Recycled(n)) == ChildrenContainBitmaps(n)
    decreases n
  {
    var r := Recycled(n);
    forall i | 0 <= i < |n.children|
      ensures ContainsBitmaps(r.children[i]) == ContainsBitmaps(n.children[i])
    {
      RecycledContains(n.children[i]);
    }
    if ChildrenContainBitmaps(n) {
      var i :| 0 <= i < |n.children| && ContainsBitmaps(n.children[i]);
      assert ContainsBitmaps(r.children[i]);
    }
    if ChildrenContainBitmaps(r) {
      var i :| 0 <= i < |r.children| && ContainsBitmaps(r.children[i]);
      assert ContainsBitmaps(n.children[i]);
    }
  }

  lemma {:induction false} RecycledSize(n: Node)
    ensures Size(Recycled(n)) == Size(n)
    decreases n
  {
    var r := Recycled(n);
    forall i | 0 <= i < |n.children|
      ensures Size(r.children[i]) == Size(n.children[i])
    {
      RecycledSize(n.children[i]);
    }
    SizeSeqPointwise(r.children, n.children);
  }

  /** Recycling a recycled subtree changes nothing. */
  lemma {:induction false} RecycledIdempotent(n: Node)
    ensures Recycled(Recycled(n)) == Recycled(n)
    decreases n
  {
    forall i | 0 <= i < |n.children|
      ensures Recycled(Recycled(n.children[i])) == Recycled(n.children[i])
    {
      RecycledIdempotent(n.children[i]);
    }
    assert RecycledSeq(RecycledSeq(n.children)) == RecycledSeq(n.children);
  }

  /** Recycling keeps a subtree well formed. */
  lemma {:induction false} RecycledWF(n: Node)
    requires WF(n)
    ensures WF(Recycled(n))
    decreases n
  {
    var r := Recycled(n);
    forall i | 0 <= i < |n.children|
      ensures WF(r.children[i])
    {
      RecycledWF(n.children[i]);
    }
  }

  /** Pruning keeps a node well formed. */
  lemma PrunedWF(n: Node)
    requires WF(n)
    ensures WF(n.(children := PrunedChildren(n)))
  {
    RecycledWF(n);
  }

  /** A node on a valid path whose soft reference yields a bitmap makes the
      subtree contain bitmaps, and the children contain one when the node is
      strictly below the root. */
  lemma {:induction false} BitmapAtContains(n: Node, s: Path)
    requires ValidPath(n, s) && GetBitmap(At(n, s)).Some?
    ensures ContainsBitmaps(n)
    ensures s != [] ==> ChildrenContainBitmaps(n)
    decreases s
  {
    if s != [] {
      var c := n.children[s[0]];
      assert At(n, s) == At(c, s[1..]);
      BitmapAtContains(c, s[1..]);
      assert 0 <= s[0] < |n.children| && ContainsBitmaps(n.children[s[0]]);
    }
  }

  /** A subtree that contains bitmaps has a node yielding one. */
  lemma {:induction false} ContainsBitmapsWitness(n: Node)
    requires ContainsBitmaps(n)
    ensures exists s :: ValidPath(n, s) && GetBitmap(At(n, s)).Some?
    decreases n, 1
  {
    if GetBitmap(n).Some? {
      assert ValidPath(n, []) && GetBitmap(At(n, [])).Some?;
    } else {
      ChildrenBitmapWitness(n);
    }
  }

  /** Children that contain bitmaps have a node strictly below the root
      yielding one. */
  lemma {:induction false} ChildrenBitmapWitness(n: Node)
    requires ChildrenContainBitmaps(n)
    ensures exists s :: s != [] && ValidPath(n, s) && GetBitmap(At(n, s)).Some?
    decreases n, 0
  {
    var i :| 0 <= i < |n.children| && ContainsBitmaps(n.children[i]);
    ContainsBitmapsWitness(n.children[i]);
    var t :| ValidPath(n.children[i], t) && GetBitmap(At(n.children[i], t)).Some?;
    var s := [i] + t;
    assert s[0] == i && s[1..] == t;
    assert s != [] && ValidPath(n, s) && GetBitmap(At(n, s)).Some?;
  }

  /** A subtree contains a bitmap exactly when some node of it has a soft
      reference that still yields one. */
  lemma ContainsBitmapsAt(n: Node)
    ensures ContainsBitmaps(n) <==>
      exists s :: ValidPath(n, s) && GetBitmap(At(n, s)).Some?
  {
    if ContainsBitmaps(n) {
      ContainsBitmapsWitness(n);
    }
    if exists s :: ValidPath(n, s) && GetBitmap(At(n, s)).Some? {
      var s :| ValidPath(n, s) && GetBitmap(At(n, s)).Some?;
      BitmapAtContains(n, s);
    }
  }

  /** The children contain a bitmap exactly when some node strictly below
      the root has a soft reference that still yields one. */
  lemma ChildrenContainBitmapsAt(n: Node)
    ensures ChildrenContainBitmaps(n) <==>
      exists s :: s != [] && ValidPath(n, s) && GetBitmap(At(n, s)).Some?
  {
    if ChildrenContainBitmaps(n) {
      ChildrenBitmapWitness(n);
    }
    if exists s :: s != [] && ValidPath(n, s) && GetBitmap(At(n, s)).Some? {
      var s :| s != [] && ValidPath(n, s) && GetBitmap(At(n, s)).Some?;
      BitmapAtContains(n, s);
    }
  }

  // ---------------------------------------------------------------- paths into the tree

  lemma {:induction false} WFAt(n: Node, s: Path)
    requires WF(n) && ValidPath(n, s)
    ensures WF(At(n, s))
    decreases s
  {
    if s != [] {
      WFAt(n.children[s[0]], s[1..]);
    }
  }

  /** Putting a well-formed node with the same slice and threshold at a path
      keeps the tree well formed, and the node is then found there. */
  lemma {:induction false} WFReplace(n: Node, s: Path, x: Node)
    requires WF(n) && ValidPath(n, s) && WF(x)
    requires x.slice == At(n, s).slice && x.threshold == At(n, s).threshold
    ensures WF(Replace(n, s, x))
    ensures ValidPath(Replace(n, s, x), s) && At(Replace(n, s, x), s) == x
    decreases s
  {
    if s != [] {
      WFReplace(n.children[s[0]], s[1..], x);
    }
  }

  lemma {:induction false} CountReplace(n: Node, s: Path, x: Node)
    requires ValidPath(n, s)
    ensures Count(Replace(n, s, x)) == Count(n) - Count(At(n, s)) + Count(x)
    decreases s
  {
    if s != [] {
      var c := n.children[s[0]];
      CountReplace(c, s[1..], x);
      CountSeqUpdate(n.children, s[0], Replace(c, s[1..], x));
    }
  }

  /** The decoding paths of a subtree lie among those of every tree above it. */
  lemma {:induction false} PathsAtSubset(n: Node, pre: Path, s: Path)
    requires ValidPath(n, s)
    ensures Paths(At(n, s), pre + s) <= Paths(n, pre)
    decreases s
  {
    if s == [] {
      assert pre + s == pre;
    } else {
      var k := s[0];
      assert pre + s == (pre + [k]) + s[1..];
      PathsAtSubset(n.children[k], pre + [k], s[1..]);
      PathsSeqUpdate(n.children, pre, k, n.children[k]);
    }
  }

  /** A decoding path of the tree that lies under `s` is a decoding path of
      the subtree at `s`. */
  lemma {:induction false} PathsUnderAt(n: Node, pre: Path, s: Path, q: Path)
    requires ValidPath(n, s)
    requires q in Paths(n, pre) && Prefix(pre + s, q)
    ensures q in Paths(At(n, s), pre + s)
    decreases s
  {
    if s == [] {
      assert pre + s == pre;
    } else {
      var k := s[0];
      assert pre + s == (pre + [k]) + s[1..];
      assert (pre + s)[..|pre| + 1] == pre + [k];
      assert Prefix(pre + [k], q) by {
        assert q[..|pre| + 1] == q[..|pre + s|][..|pre| + 1];
      }
      PrefixExtend(pre, k, q);
      PathsSeqMember(n.children, pre, q);
      var j :| 0 <= j < |n.children| && q in Paths(n.children[j], pre + [j]);
      ChildPathIndex(n.children[j], pre, j, q);
      PathsUnderAt(n.children[k], pre + [k], s[1..], q);
    }
  }

  /** Every decoding path names a node that exists and is decoding. */
  lemma {:induction false} PathsValid(n: Node, pre: Path, q: Path)
    requires q in Paths(n, pre)
    ensures Prefix(pre, q)
    ensures ValidPath(n, q[|pre|..]) && At(n, q[|pre|..]).decoding
    decreases n
  {
    PathsPrefixed(n, pre, q);
    if !(n.decoding && q == pre) {
      PathsSeqMember(n.children, pre, q);
      var j :| 0 <= j < |n.children| && q in Paths(n.children[j], pre + [j]);
      ChildPathIndex(n.children[j], pre, j, q);
      PathsValid(n.children[j], pre + [j], q);
      var s := q[|pre|..];
      assert s[0] == j && s[1..] == q[|pre + [j]|..];
    } else {
      assert q[|pre|..] == [];
    }
  }

  /** The decoding paths of a tree outside the subtree at `s` have no path
      under `s`, and the subtree's own lie among the tree's. */
  lemma SubtreeOthers(n: Node, s: Path)
    requires ValidPath(n, s)
    ensures Outside(Paths(n, []) - Paths(At(n, s), s), s)
    ensures Paths(At(n, s), s) <= Paths(n, [])
  {
    assert [] + s == s;
    forall q | q in Paths(n, []) - Paths(At(n, s), s) && Prefix(s, q) ensures false {
      PathsUnderAt(n, [], s, q);
    }
    PathsAtSubset(n, [], s);
  }

  /** Replacing the subtree at `s` swaps its decoding paths for the new
      subtree's. */
  lemma {:induction false} PathsReplace(n: Node, pre: Path, s: Path, x: Node)
    requires ValidPath(n, s)
    ensures Paths(Replace(n, s, x), pre) ==
      (Paths(n, pre) - Paths(At(n, s), pre + s)) + Paths(x, pre + s)
    decreases s
  {
    if s == [] {
      assert pre + s == pre;
    } else {
      var k := s[0];
      var c := n.children[k];
      assert pre + s == (pre + [k]) + s[1..];
      PathsReplace(c, pre + [k], s[1..], x);
      PathsSeqUpdate(n.children, pre, k, Replace(c, s[1..], x));
      PathsAtSubset(c, pre + [k], s[1..]);
      if pre in Paths(At(n, s), pre + s) {
        PathsPrefixed(At(n, s), pre + s, pre);
      }
    }
  }

  // ---------------------------------------------------------------- setBitmap

  /** `setBitmap` leaves the node as it is for the -1 x -1 bitmap and for
      the instance it already holds strongly. */
  lemma SetBitmapNoOp(n: Node, b: Option<Bitmap>)
    requires (b.Some? && IsSentinel(b.value)) || b == n.bitmap
    ensures AfterSetBitmap(n, b) == n
  {
  }

  /** After `setBitmap` with a usable bitmap the soft reference yields it and
      the node holds it strongly; after `setBitmap(null)` only the strong
      reference is gone, so `getBitmap()` answers as before. Setting the same
      value twice is the same as setting it once, and well-formedness is
      kept. */
  lemma AfterSetBitmapFacts(n: Node, b: Option<Bitmap>)
    ensures WF(n) && b.Some? && !IsSentinel(b.value) ==>
      GetBitmap(AfterSetBitmap(n, b)) == b && AfterSetBitmap(n, b).bitmap == b
    ensures b.None? ==>
      GetBitmap(AfterSetBitmap(n, b)) == GetBitmap(n) && AfterSetBitmap(n, b).bitmap.None?
    ensures AfterSetBitmap(AfterSetBitmap(n, b), b) == AfterSetBitmap(n, b)
    ensures AfterSetBitmap(n, b).decoding == n.decoding &&
            AfterSetBitmap(n, b).children == n.children
    ensures WF(n) ==> WF(AfterSetBitmap(n, b))
  {
  }

  // ---------------------------------------------------------------- invalidateChildren

  /** The four new children are empty leaves that tile the parent's slice,
      each with twice the parent's threshold. */
  lemma SpawnFacts(n: Node, p: Path)
    requires WF(n) && |n.children| == 0
    ensures WF(n.(children := Spawn(n)))
    ensures CountSeq(Spawn(n)) == 0 && PathsSeq(Spawn(n), p) == {}
    ensures forall k :: 0 <= k < 4 ==>
      Spawn(n)[k].slice == ChildSlice(n.slice, k) &&
      Spawn(n)[k].threshold == 2.0 * n.threshold &&
      NoneDecoding(Spawn(n)[k]) && !ContainsBitmaps(Spawn(n)[k])
  {
    var cs := Spawn(n);
    CountSeqZero(cs);
    forall q | q in PathsSeq(cs, p) ensures false {
      PathsSeqMember(cs, p, q);
    }
  }

  /** The four children created by subdivision tile the parent's slice: a
      point of the slice lies in the slice of exactly one child. */
  lemma SpawnTiles(n: Node, x: real, y: real)
    requires Proper(n.slice)
    ensures HalfOpenContains(n.slice, x, y) <==>
      exists k :: 0 <= k < 4 && HalfOpenContains(Spawn(n)[k].slice, x, y)
    ensures forall j, k ::
      (0 <= j < 4 && 0 <= k < 4 &&
       HalfOpenContains(Spawn(n)[j].slice, x, y) &&
       HalfOpenContains(Spawn(n)[k].slice, x, y)) ==> j == k
  {
    QuadrantsPartition(n.slice, x, y);
    assert forall k :: 0 <= k < 4 ==> Spawn(n)[k].slice == ChildSlice(n.slice, k);
  }

  /** Target rectangles nest like slices: while neither has a memo, child
      `k`'s target rectangle is quadrant `k` of its parent's. */
  lemma TargetRectsNest(n: Node, k: nat, bounds: Rect)
    requires WF(n) && k < |n.children| && Proper(n.slice) && Proper(bounds)
    requires n.target.None? && n.children[k].target.None?
    ensures TargetRect(n.children[k], bounds) == ChildSlice(TargetRect(n, bounds), k)
  {
    MapRectCompose(Quadrants[k], n.slice, bounds);
  }

  /** A visible node at or above its threshold has four children after
      `invalidateChildren()`, and every child left is one a traversal may
      recurse on: a new child has one generation fewer to spawn, a kept or
      recycled child is a smaller tree. */
  lemma InvalidatedBelow(n: Node, v: View)
    requires WF(n)
    ensures IsVisible(n, v) && ThresholdHit(n, v.zoom) ==> |InvalidatedChildren(n, v)| == 4
    ensures forall i :: 0 <= i < |InvalidatedChildren(n, v)| ==>
      Below(InvalidatedChildren(n, v)[i], n, v.zoom)
  {
    LevelsChild(n.threshold, v.zoom);
    if ThresholdHit(n, v.zoom) && |n.children| == 0 && IsVisible(n, v) {
    } else if PruneCondition(n, v) {
      forall i | 0 <= i < |n.children|
        ensures Size(Recycled(n.children[i])) < Size(n)
      {
        RecycledFacts(n.children[i]);
        SizeChild(n, i);
      }
    } else {
      forall i | 0 <= i < |n.children|
        ensures Size(n.children[i]) < Size(n)
      {
        SizeChild(n, i);
      }
    }
  }

  /** When `invalidateChildren()` prunes, every child it keeps is cancelled
      throughout and holds no strong bitmap, so the subtree below the node
      has no decode request and adds nothing to the progress counter. */
  lemma InvalidatedPruned(n: Node, v: View, p: Path)
    requires PruneCondition(n, v)
    ensures forall i :: 0 <= i < |InvalidatedChildren(n, v)| ==>
      NoneDecoding(InvalidatedChildren(n, v)[i]) &&
      NoStrongBitmaps(InvalidatedChildren(n, v)[i])
    ensures CountSeq(InvalidatedChildren(n, v)) == 0
    ensures PathsSeq(InvalidatedChildren(n, v), p) == {}
  {
    var r := Recycled(n);
    RecycledFacts(n);
    if InvalidatedChildren(n, v) != [] {
      NoneDecodingCount(r);
      NoneDecodingPaths(r, p);
    }
  }

  /** `invalidateChildren()` drops existing children only when no
      descendant of the node still yields a bitmap. */
  lemma InvalidatedDropped(n: Node, v: View)
    requires |n.children| > 0 && InvalidatedChildren(n, v) == []
    ensures forall s :: s != [] && ValidPath(n, s) ==> GetBitmap(At(n, s)).None?
  {
    ChildrenContainBitmapsAt(n);
  }

  /** `invalidateChildren()` keeps a node well formed. */
  lemma InvalidatedWF(n: Node, v: View)
    requires WF(n)
    ensures WF(n.(children := InvalidatedChildren(n, v)))
  {
    if ThresholdHit(n, v.zoom) && |n.children| == 0 && IsVisible(n, v) {
      SpawnFacts(n, []);
    } else if PruneCondition(n, v) {
      PrunedWF(n);
    }
  }

  // ---------------------------------------------------------------- invalidateNodeBounds

  /** Clearing the memos leaves no memo anywhere and changes nothing else that
      the traversals read: the tree stays well formed, the same nodes are
      decoding, and every node's target rectangle is its slice mapped afresh
      through the page bounds. */
  lemma {:induction false} ClearedFacts(n: Node, p: Path, bounds: Rect)
    ensures NoTargets(ClearedTargets(n))
    ensures TargetRect(ClearedTargets(n), bounds) == MapRect(n.slice, bounds)
    ensures Count(ClearedTargets(n)) == Count(n)
    ensures Paths(ClearedTargets(n), p) == Paths(n, p)
    ensures WF(n) ==> WF(ClearedTargets(n))
    decreases n
  {
    var r := ClearedTargets(n);
    forall i | 0 <= i < |n.children| {
      ClearedFacts(n.children[i], p + [i], bounds);
    }
    assert CountSeq(r.children) == CountSeq(n.children) by {
      CountSeqPointwise(r.children, n.children);
    }
    assert PathsSeq(r.children, p) == PathsSeq(n.children, p) by {
      PathsSeqPointwise(r.children, n.children, p);
    }
  }

  /** Clearing the memos twice is clearing them once. */
  lemma {:induction false} ClearedIdempotent(n: Node)
    ensures ClearedTargets(ClearedTargets(n)) == ClearedTargets(n)
    decreases n
  {
    forall i | 0 <= i < |n.children|
      ensures ClearedTargets(ClearedTargets(n.children[i])) == ClearedTargets(n.children[i])
    {
      ClearedIdempotent(n.children[i]);
    }
    assert ClearedSeq(ClearedSeq(n.children)) == ClearedSeq(n.children);
  }

  lemma {:induction false} CountSeqPointwise(cs: seq<Node>, ds: seq<Node>)
    requires |cs| == |ds|
    requires forall i :: 0 <= i < |cs| ==> Count(cs[i]) == Count(ds[i])
    ensures CountSeq(cs) == CountSeq(ds)
    decreases cs
  {
    if cs != [] {
      CountSeqPointwise(cs[..|cs| - 1], ds[..|ds| - 1]);
    }
  }

  lemma {:induction false} PathsSeqPointwise(cs: seq<Node>, ds: seq<Node>, p: Path)
    requires |cs| == |ds|
    requires forall i :: 0 <= i < |cs| ==> Paths(cs[i], p + [i]) == Paths(ds[i], p + [i])
    ensures PathsSeq(cs, p) == PathsSeq(ds, p)
    decreases cs
  {
    if cs != [] {
      PathsSeqPointwise(cs[..|cs| - 1], ds[..|ds| - 1], p);
    }
  }
}
