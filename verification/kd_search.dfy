/** Branch-and-bound search in the k-d tree (`_find_nearest` and
    `find_nearest` of `app/kd_tree.py`). The distance is the mean absolute
    elementwise difference; the near side is chosen by comparing column
    means at the node's axis, and the far side is visited only while the
    gap between those means is below the best distance so far. That gap is
    not a lower bound for the distance, so the result need not be the
    nearest stored face; what is proved instead is that the answer is a
    stored face at exactly the reported distance, that the best never gets
    worse, and that a stored face finds itself at distance 0. */
module KdSearch {
  import opened Wrappers
  import opened FaceArray
  import opened KdTree

  /** The search state `(best_dist, best_node)`. */
  datatype Best = Best(dist: Dist, node: Option<Entry>)

  /** The search is defined for `target`: every stored face has its shape
      (so `node.face_data - target` needs no broadcasting) and every split
      axis is a column of it. */
  predicate Fits(t: Tree, target: Face) {
    && (forall x | x in Entries(t) :: SameShape(x.face, target))
    && AxesBelow(t, Cols(target))
  }

  /** Every split axis of `t` is below `n`. */
  predicate AxesBelow(t: Tree, n: nat) {
    match t
    case Nil => true
    case Node(_, a, l, r) => a < n && AxesBelow(l, n) && AxesBelow(r, n)
  }

  /** A best distance that is infinite or not negative, as every distance is. */
  predicate NonNegative(b: Best) {
    b.dist.Inf? || b.dist.value >= 0.0
  }

  /** `_find_nearest(node, target, best_dist, best_node)` (lines 59-94). */
  function NearestFrom(t: Tree, target: Face, best: Best): (r: Best)
    requires Fits(t, target)
    ensures AtMost(r.dist, best.dist)
    ensures || r == best
            || (&& r.node.Some? && r.node.value in Entries(t)
                && r.dist == Fin(MeanAbsDiff(r.node.value.face, target))
                && Less(r.dist, best.dist))
    ensures t.Node? && best.dist.Inf? ==> r.dist.Fin? && r.node.Some?
  {
    match t
    case Nil => best
    case Node(e, a, l, rt) =>
      FitsNode(t, target);
      var cur := MeanAbsDiff(e.face, target);
      var b1 := if Below(cur, best.dist) then Best(Fin(cur), Some(e)) else best;
      var tv := ColumnMean(target, a);
      var nv := ColumnMean(e.face, a);
      var first := if tv < nv then l else rt;
      var second := if tv < nv then rt else l;
      var b2 := NearestFrom(first, target, b1);
      if Below(Abs(tv - nv), b2.dist) then NearestFrom(second, target, b2) else b2
  }

  /** A node fits the target when its entry, its axis and both subtrees do. */
  lemma FitsNode(t: Tree, target: Face)
    requires Fits(t, target) && t.Node?
    ensures Fits(t.left, target) && Fits(t.right, target)
    ensures SameShape(t.entry.face, target) && t.axis < Cols(target)
  {
    assert t.entry in Entries(t);
  }

  /** Searching never produces a negative distance. */
  lemma NearestFromNonNegative(t: Tree, target: Face, best: Best)
    requires Fits(t, target) && NonNegative(best)
    ensures NonNegative(NearestFrom(t, target, best))
  {
    var r := NearestFrom(t, target, best);
    if r != best {
      assert r.dist.value == MeanAbsDiff(r.node.value.face, target);
    }
  }

  /** Ties never replace the best: once distance 0 is reached the best
      entry is kept, so among several exact copies the first visited wins. */
  lemma ExactMatchKept(t: Tree, target: Face, best: Best)
    requires Fits(t, target) && best.dist == Fin(0.0)
    ensures NearestFrom(t, target, best) == best
  {
  }

  /** One node of `_find_nearest`: update the best with the node, search
      the near side, then the far side if the column-mean gap is below the
      best so far. */
  lemma NearestFromNode(t: Tree, target: Face, best: Best) returns (b1: Best, tv: real, nv: real)
    requires Fits(t, target) && t.Node?
    ensures Fits(t.left, target) && Fits(t.right, target)
    ensures SameShape(t.entry.face, target) && t.axis < Cols(target)
    ensures b1 == if Below(MeanAbsDiff(t.entry.face, target), best.dist)
                  then Best(Fin(MeanAbsDiff(t.entry.face, target)), Some(t.entry)) else best
    ensures tv == ColumnMean(target, t.axis) && nv == ColumnMean(t.entry.face, t.axis)
    ensures var b2 := NearestFrom(if tv < nv then t.left else t.right, target, b1);
      NearestFrom(t, target, best) ==
        if Below(Abs(tv - nv), b2.dist) then NearestFrom(if tv < nv then t.right else t.left, target, b2) else b2
  {
    FitsNode(t, target);
    var cur := MeanAbsDiff(t.entry.face, target);
    b1 := if Below(cur, best.dist) then Best(Fin(cur), Some(t.entry)) else best;
    tv := ColumnMean(target, t.axis);
    nv := ColumnMean(t.entry.face, t.axis);
  }

  /** Self-match: in an ordered tree, searching for a stored face ends at
      distance 0 from any non-negative starting best. The near-side rule
      follows the ordering towards the copy; when the column means are equal
      the far side is still visited, because a gap of 0 is below any best
      that is not already 0. */
  lemma {:induction false} NearestFromFindsCopy(t: Tree, target: Face, best: Best, x: Entry)
    requires Fits(t, target) && Ordered(t) && NonNegative(best)
    requires x in Entries(t) && x.face == target
    ensures NearestFrom(t, target, best).dist == Fin(0.0)
    decreases t, 1
  {
    if x == t.entry {
      CopyAtNode(t, target, best);
    } else if x in Entries(t.left) {
      CopyOnLeft(t, target, best, x);
    } else {
      CopyOnRight(t, target, best, x);
    }
  }

  /** The node itself holds the target: the best drops to 0 and stays. */
  lemma CopyAtNode(t: Tree, target: Face, best: Best)
    requires Fits(t, target) && t.Node? && t.entry.face == target && NonNegative(best)
    ensures NearestFrom(t, target, best).dist == Fin(0.0)
  {
    var b1, tv, nv := NearestFromNode(t, target, best);
    MeanAbsDiffZeroIff(t.entry.face, target);
    assert tv == nv;
    ExactMatchKept(t.right, target, b1);
    ExactMatchKept(t.left, target, b1);
  }

  /** The copy is on the left: its column mean is at most the node's, so the
      left side is searched first, or second after a tie. */
  lemma {:induction false} CopyOnLeft(t: Tree, target: Face, best: Best, x: Entry)
    requires Fits(t, target) && Ordered(t) && NonNegative(best) && t.Node?
    requires x in Entries(t.left) && x.face == target
    ensures NearestFrom(t, target, best).dist == Fin(0.0)
    decreases t, 0
  {
    var b1, tv, nv := NearestFromNode(t, target, best);
    assert NonNegative(b1);
    assert Key(x, t.axis) <= Key(t.entry, t.axis);
    if tv < nv {
      NearestFromFindsCopy(t.left, target, b1, x);
      ExactMatchKept(t.right, target, NearestFrom(t.left, target, b1));
    } else {
      var b2 := NearestFrom(t.right, target, b1);
      NearestFromNonNegative(t.right, target, b1);
      if b2.dist != Fin(0.0) {
        assert Abs(tv - nv) == 0.0;
        NearestFromFindsCopy(t.left, target, b2, x);
      }
    }
  }

  /** The copy is on the right: its column mean is at least the node's, so
      the right side is searched first. */
  lemma {:induction false} CopyOnRight(t: Tree, target: Face, best: Best, x: Entry)
    requires Fits(t, target) && Ordered(t) && NonNegative(best) && t.Node?
    requires x in Entries(t.right) && x.face == target
    ensures NearestFrom(t, target, best).dist == Fin(0.0)
    decreases t, 0
  {
    var b1, tv, nv := NearestFromNode(t, target, best);
    assert NonNegative(b1);
    assert Key(x, t.axis) >= Key(t.entry, t.axis);
    NearestFromFindsCopy(t.right, target, b1, x);
    ExactMatchKept(t.left, target, NearestFrom(t.right, target, b1));
  }

  /** `find_nearest(target)` (lines 96-105): the user id of the best node and
      its distance recomputed from the target, or `(None, inf)`. */
  function FindNearest(tree: KDTree, target: Face): (r: (Option<string>, Dist))
    requires Fits(tree.root, target)
    ensures tree.root == Nil ==> r == (None, Inf)
    ensures tree.root != Nil ==>
      && r.0.Some?
      && exists x :: x in Entries(tree.root) && x.uid == r.0.value && r.1 == Fin(MeanAbsDiff(x.face, target))
  {
    if tree.root == Nil then (None, Inf)
    else
      var b := NearestFrom(tree.root, target, Best(Inf, None));
      if b.node.None? then (None, Inf)
      else (Some(b.node.value.uid), Fin(MeanAbsDiff(b.node.value.face, target)))
  }

  /** Probing with a face stored in an ordered tree returns distance 0 and
      the id of an entry holding exactly that face. */
  lemma FindNearestStored(tree: KDTree, x: Entry)
    requires Fits(tree.root, x.face) && Ordered(tree.root) && x in Entries(tree.root)
    ensures var r := FindNearest(tree, x.face);
      && r.0.Some? && r.1 == Fin(0.0)
      && exists y :: y in Entries(tree.root) && y.uid == r.0.value && y.face == x.face
  {
    var b := NearestFrom(tree.root, x.face, Best(Inf, None));
    NearestFromFindsCopy(tree.root, x.face, Best(Inf, None), x);
    MeanAbsDiffZeroIff(b.node.value.face, x.face);
  }

  /** The axes of a round-robin tree are below the column count. */
  lemma {:induction false} RoundRobinAxesBelow(t: Tree, axis: nat, cols: nat)
    requires cols > 0 && RoundRobin(t, axis, cols)
    ensures AxesBelow(t, cols)
  {
    match t
    case Nil =>
    case Node(_, _, l, r) =>
      RoundRobinAxesBelow(l, (axis + 1) % cols, cols);
      RoundRobinAxesBelow(r, (axis + 1) % cols, cols);
  }

  /** Every tree `build` makes fits any target of the stored faces' shape. */
  lemma BuildFits(t: KDTree, faces: seq<Entry>, target: Face)
    requires Uniform(faces) && |faces| > 0 && SameShape(target, faces[0].face)
    ensures Fits(Build(t, faces).root, target)
  {
    var tree := Build(t, faces);
    BuildOrdered(t, faces);
    forall x | x in Entries(tree.root)
      ensures SameShape(x.face, target)
    {
      assert x in multiset(faces);
      var j :| 0 <= j < |faces| && faces[j] == x;
      assert SameShape(faces[j].face, faces[0].face);
    }
    RoundRobinAxesBelow(tree.root, 0, Cols(target));
  }

  /** Probing a built tree with one of the built faces returns a stored id
      at distance 0. */
  lemma BuildFindsEveryFace(t: KDTree, faces: seq<Entry>, i: nat)
    requires Uniform(faces) && i < |faces|
    ensures var tree := Build(t, faces);
      && Fits(tree.root, faces[i].face)
      && FindNearest(tree, faces[i].face).1 == Fin(0.0)
      && FindNearest(tree, faces[i].face).0.Some?
  {
    var tree := Build(t, faces);
    assert SameShape(faces[i].face, faces[0].face);
    BuildFits(t, faces, faces[i].face);
    BuildOrdered(t, faces);
    assert faces[i] in multiset(faces);
    FindNearestStored(tree, faces[i]);
  }
}
