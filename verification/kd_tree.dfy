/** The k-d tree of `app/kd_tree.py`: its nodes, bulk construction by
    repeated median split, node counting, and the load/save outcomes.
    Every node stores one (face array, user id) entry and the axis it was
    split on; the split value is not cached but recomputed as a column mean. */
module KdTree {
  import opened Wrappers
  import opened FaceArray
  import opened StableSort

  /** One stored face with the id of its user (a `(face_data, user_id)` pair). */
  datatype Entry = Entry(face: Face, uid: string)

  /** `Optional[KDNode]`: `Nil` is `None`; a node owns its two children. */
  datatype Tree = Nil | Node(entry: Entry, axis: nat, left: Tree, right: Tree)

  /** The `KDTree` object: its root and the `size` it records. */
  datatype KDTree = KDTree(root: Tree, size: nat)

  /** `KDTree()`: no root, size 0. */
  const Empty: KDTree := KDTree(Nil, 0)

  /** The entries stored in a tree, with multiplicity. */
  function Entries(t: Tree): multiset<Entry> {
    match t
    case Nil => multiset{}
    case Node(e, _, l, r) => multiset{e} + Entries(l) + Entries(r)
  }

  /** `count_nodes`: the number of nodes reachable from `t`. */
  function CountNodes(t: Tree): (n: nat)
    ensures n == |Entries(t)|
    ensures n == 0 <==> t == Nil
  {
    match t
    case Nil => 0
    case Node(_, _, l, r) => 1 + CountNodes(l) + CountNodes(r)
  }

  // ---------------------------------------------------------------------
  // Shapes and sort keys
  // ---------------------------------------------------------------------

  /** Every face of the list is a `rows` x `cols` array. */
  predicate AllShaped(faces: seq<Entry>, rows: nat, cols: nat) {
    forall i :: 0 <= i < |faces| ==> HasShape(faces[i].face, rows, cols)
  }

  /** All faces have the shape of the first one. The source checks no
      dimensions; unequal shapes can raise in numpy or broadcast, and neither
      case is modelled, so every operation here requires this. */
  predicate Uniform(faces: seq<Entry>) {
    forall i :: 0 <= i < |faces| ==> SameShape(faces[i].face, faces[0].face)
  }

  /** Column `axis` exists in the entry's face. */
  predicate Keyable(e: Entry, axis: nat) {
    Rectangular(e.face) && axis < Cols(e.face)
  }

  /** The sort key `float(np.mean(x[0][:, axis]))`. */
  function Key(e: Entry, axis: nat): real
    requires Keyable(e, axis)
  {
    ColumnMean(e.face, axis)
  }

  /** Pairs each entry with its sort key. */
  function Decorate(s: seq<Entry>, axis: nat): (r: seq<Keyed<Entry>>)
    requires forall i :: 0 <= i < |s| ==> Keyable(s[i], axis)
    ensures Items(r) == s
    ensures KeysMatch(r, axis)
  {
    seq(|s|, i requires 0 <= i < |s| => Keyed(Key(s[i], axis), s[i]))
  }

  /** Every key is the key of its own item. */
  ghost predicate KeysMatch(d: seq<Keyed<Entry>>, axis: nat) {
    forall i :: 0 <= i < |d| ==> Keyable(d[i].item, axis) && d[i].key == Key(d[i].item, axis)
  }

  lemma KeysMatchPermuted(a: seq<Keyed<Entry>>, b: seq<Keyed<Entry>>, axis: nat)
    requires multiset(a) == multiset(b) && KeysMatch(b, axis)
    ensures KeysMatch(a, axis)
  {
    forall i | 0 <= i < |a|
      ensures Keyable(a[i].item, axis) && a[i].key == Key(a[i].item, axis)
    {
      assert a[i] in multiset(b);
    }
  }

  lemma ShapedPermuted(a: seq<Entry>, b: seq<Entry>, rows: nat, cols: nat)
    requires multiset(a) == multiset(b) && AllShaped(b, rows, cols)
    ensures AllShaped(a, rows, cols)
  {
    forall i | 0 <= i < |a|
      ensures HasShape(a[i].face, rows, cols)
    {
      assert a[i] in multiset(b);
    }
  }

  /** `sorted(faces[start:end], key=...)` (lines 28-31): a permutation of the
      slice whose column-`axis` means never decrease. */
  function SortSlice(s: seq<Entry>, axis: nat): (r: seq<Entry>)
    requires forall i :: 0 <= i < |s| ==> Keyable(s[i], axis)
    ensures |r| == |s| && multiset(r) == multiset(s)
    ensures forall i :: 0 <= i < |r| ==> Keyable(r[i], axis)
    ensures forall i, j :: 0 <= i < j < |r| ==> Key(r[i], axis) <= Key(r[j], axis)
  {
    var decorated := Decorate(s, axis);
    var sorted := Sort(decorated);
    SortItems(decorated);
    KeysMatchPermuted(sorted, decorated, axis);
    Items(sorted)
  }

  /** The entries of `s` whose column-`axis` mean is `k`, in their order in `s`. */
  function WithEntryKey(s: seq<Entry>, axis: nat, k: real): seq<Entry>
    requires forall i :: 0 <= i < |s| ==> Keyable(s[i], axis)
  {
    if |s| == 0 then []
    else (if Key(s[0], axis) == k then [s[0]] else []) + WithEntryKey(s[1..], axis, k)
  }

  /** Filtering decorated entries by key and then dropping the keys is
      filtering the entries by their column mean. */
  lemma {:induction false} WithEntryKeyItems(d: seq<Keyed<Entry>>, axis: nat, k: real)
    requires KeysMatch(d, axis)
    ensures forall i :: 0 <= i < |Items(d)| ==> Keyable(Items(d)[i], axis)
    ensures WithEntryKey(Items(d), axis, k) == Items(WithKey(d, k))
  {
    if |d| > 0 {
      var head := if d[0].key == k then [d[0]] else [];
      assert Items(d)[0] == d[0].item;
      assert Items(d)[1..] == Items(d[1..]);
      WithEntryKeyItems(d[1..], axis, k);
      ItemsAppend(head, WithKey(d[1..], k));
      assert Items(head) == if d[0].key == k then [d[0].item] else [];
    }
  }

  /** `sorted` is stable: among entries with the same column-`axis` mean,
      the sorted slice keeps the order of the slice. Which entry becomes the
      median when several share its key depends on this. */
  lemma SortSliceStable(s: seq<Entry>, axis: nat, k: real)
    requires forall i :: 0 <= i < |s| ==> Keyable(s[i], axis)
    ensures WithEntryKey(SortSlice(s, axis), axis, k) == WithEntryKey(s, axis, k)
  {
    var decorated := Decorate(s, axis);
    var sorted := Sort(decorated);
    SortItems(decorated);
    KeysMatchPermuted(sorted, decorated, axis);
    assert SortSlice(s, axis) == Items(sorted);
    WithEntryKeyItems(sorted, axis, k);
    WithEntryKeyItems(decorated, axis, k);
    SortIsStable(decorated, k);
  }

  // ---------------------------------------------------------------------
  // Construction
  // ---------------------------------------------------------------------

  /** The split axis of the children, `(axis + 1) % faces[0][0].shape[1]`:
      `width` is the column count of the first face of the list, which
      every face of the list shares. */
  function NextAxis(axis: nat, width: nat): (r: nat)
    requires width > 0
    ensures r < width
    ensures axis + 1 < width ==> r == axis + 1
    ensures axis + 1 == width ==> r == 0
  {
    (axis + 1) % width
  }

  /** Every slice of a list of `rows` x `cols` faces is one too. */
  lemma ShapedSlice(s: seq<Entry>, lo: nat, hi: nat, rows: nat, cols: nat)
    requires lo <= hi <= |s| && AllShaped(s, rows, cols)
    ensures AllShaped(s[lo..hi], rows, cols)
  {
    forall i | 0 <= i < hi - lo
      ensures HasShape(s[lo..hi][i].face, rows, cols)
    {
      assert s[lo..hi][i] == s[lo + i];
    }
  }

  /** A face of the common shape has column `axis` whenever `axis < cols`. */
  lemma ShapedKeyable(s: seq<Entry>, axis: nat, rows: nat, cols: nat)
    requires AllShaped(s, rows, cols) && axis < cols
    ensures forall i :: 0 <= i < |s| ==> Keyable(s[i], axis)
  {
    forall i | 0 <= i < |s|
      ensures Keyable(s[i], axis)
    {
      assert HasShape(s[i].face, rows, cols);
    }
  }

  /** The two halves of the sorted slice around its median have the common
      shape, and together with the median they hold the slice. */
  lemma HalvesShaped(s: seq<Entry>, axis: nat, width: nat, rows: nat)
    requires AllShaped(s, rows, width) && axis < width && |s| > 0
    ensures forall i :: 0 <= i < |s| ==> Keyable(s[i], axis)
    ensures var o := SortSlice(s, axis); var m := |o| / 2;
      && AllShaped(o[..m], rows, width) && AllShaped(o[m + 1..], rows, width)
      && multiset(s) == multiset(o[..m]) + multiset{o[m]} + multiset(o[m + 1..])
  {
    ShapedKeyable(s, axis, rows, width);
    var o := SortSlice(s, axis);
    var m := |o| / 2;
    ShapedPermuted(o, s, rows, width);
    ShapedSlice(o, 0, m, rows, width);
    ShapedSlice(o, m + 1, |o|, rows, width);
    ThreeParts(o, m);
  }

  /** `_build_tree(faces, start, end, axis)` (lines 21-49) applied to the
      slice `s == faces[start:end]`: sort the slice by the column-`axis` mean,
      store its median element at the node and build the lower and upper
      halves of the sorted slice on the next axis. The recursive calls only
      read the part of the list they are given, so the whole list is not
      carried along. */
  function BuildSlice(s: seq<Entry>, axis: nat, width: nat, ghost rows: nat): (t: Tree)
    requires AllShaped(s, rows, width) && axis < width
    ensures Entries(t) == multiset(s)
    decreases |s|
  {
    if |s| == 0 then Nil
    else
      ShapedKeyable(s, axis, rows, width);
      var ordered := SortSlice(s, axis);
      var m := |ordered| / 2;
      HalvesShaped(s, axis, width, rows);
      var next := NextAxis(axis, width);
      var left := BuildSlice(ordered[..m], next, width, rows);
      var right := BuildSlice(ordered[m + 1..], next, width, rows);
      Node(ordered[m], axis, left, right)
  }

  /** The slice `faces[start:end]` after `_build_tree` returns: line 40
      writes the sorted slice back, then the two recursive calls rewrite the
      parts before and after the median in the same way. */
  function SliceAfterBuild(s: seq<Entry>, axis: nat, width: nat, ghost rows: nat): (r: seq<Entry>)
    requires AllShaped(s, rows, width) && axis < width
    ensures |r| == |s|
    decreases |s|
  {
    if |s| == 0 then []
    else
      ShapedKeyable(s, axis, rows, width);
      var ordered := SortSlice(s, axis);
      var m := |ordered| / 2;
      HalvesShaped(s, axis, width, rows);
      var next := NextAxis(axis, width);
      SliceAfterBuild(ordered[..m], next, width, rows) + [ordered[m]] + SliceAfterBuild(ordered[m + 1..], next, width, rows)
  }

  /** The whole list after `_build_tree(faces, start, end, axis)`. */
  function ListAfterBuild(faces: seq<Entry>, start: nat, end: nat, axis: nat, width: nat, ghost rows: nat): (r: seq<Entry>)
    requires start <= end <= |faces| && AllShaped(faces, rows, width) && axis < width
    ensures |r| == |faces|
    ensures r[..start] == faces[..start] && r[end..] == faces[end..]
  {
    ShapedSlice(faces, start, end, rows, width);
    Concat3(faces[..start], SliceAfterBuild(faces[start..end], axis, width, rows), faces[end..]);
    faces[..start] + SliceAfterBuild(faces[start..end], axis, width, rows) + faces[end..]
  }

  /** One level of the in-place writes on a non-empty slice. */
  lemma SliceAfterBuildStep(s: seq<Entry>, axis: nat, width: nat, rows: nat)
    returns (ordered: seq<Entry>, next: nat)
    requires AllShaped(s, rows, width) && axis < width && |s| > 0
    ensures |ordered| == |s| && multiset(ordered) == multiset(s)
    ensures next < width
    ensures AllShaped(ordered[..|s| / 2], rows, width) && AllShaped(ordered[|s| / 2 + 1..], rows, width)
    ensures SliceAfterBuild(s, axis, width, rows) ==
      SliceAfterBuild(ordered[..|s| / 2], next, width, rows) + [ordered[|s| / 2]]
        + SliceAfterBuild(ordered[|s| / 2 + 1..], next, width, rows)
  {
    ShapedKeyable(s, axis, rows, width);
    ordered := SortSlice(s, axis);
    var m := |ordered| / 2;
    HalvesShaped(s, axis, width, rows);
    next := NextAxis(axis, width);
  }

  /** The in-place writes only permute the slice they are given. */
  lemma {:induction false} SliceAfterBuildPermutes(s: seq<Entry>, axis: nat, width: nat, rows: nat)
    requires AllShaped(s, rows, width) && axis < width
    ensures multiset(SliceAfterBuild(s, axis, width, rows)) == multiset(s)
    decreases |s|
  {
    if |s| > 0 {
      var ordered, next := SliceAfterBuildStep(s, axis, width, rows);
      var m := |s| / 2;
      var a := SliceAfterBuild(ordered[..m], next, width, rows);
      var b := SliceAfterBuild(ordered[m + 1..], next, width, rows);
      SliceAfterBuildPermutes(ordered[..m], next, width, rows);
      SliceAfterBuildPermutes(ordered[m + 1..], next, width, rows);
      ThreeParts(ordered, m);
      calc {
        multiset(SliceAfterBuild(s, axis, width, rows));
        multiset(a + [ordered[m]] + b);
        multiset(a) + multiset{ordered[m]} + multiset(b);
        multiset(ordered[..m]) + multiset{ordered[m]} + multiset(ordered[m + 1..]);
      }
    }
  }

  /** The three parts of a concatenation are its slices. */
  lemma Concat3(a: seq<Entry>, b: seq<Entry>, c: seq<Entry>)
    ensures var r := a + b + c;
      && r[..|a|] == a && r[|a|..|a| + |b|] == b && r[|a| + |b|..] == c
  {
  }

  /** Replacing `faces[start..end]` by a permutation of it keeps the rest
      of the list and its multiset. */
  lemma SpliceFrame(faces: seq<Entry>, start: nat, end: nat, mid: seq<Entry>)
    requires start <= end <= |faces| && multiset(mid) == multiset(faces[start..end])
    ensures |mid| == end - start
    ensures var r := faces[..start] + mid + faces[end..];
      && |r| == |faces|
      && r[..start] == faces[..start] && r[end..] == faces[end..]
      && multiset(r[start..end]) == multiset(faces[start..end])
      && multiset(r) == multiset(faces)
  {
    assert |mid| == |multiset(mid)| == |multiset(faces[start..end])| == end - start;
    Concat3(faces[..start], mid, faces[end..]);
    Concat3(faces[..start], faces[start..end], faces[end..]);
    assert faces == faces[..start] + faces[start..end] + faces[end..];
  }

  /** `_build_tree` leaves the list outside `[start, end)` untouched, keeps
      its length, and only permutes the entries inside the range. */
  lemma ListAfterBuildFrame(faces: seq<Entry>, start: nat, end: nat, axis: nat, width: nat, rows: nat)
    requires start <= end <= |faces| && AllShaped(faces, rows, width) && axis < width
    ensures var r := ListAfterBuild(faces, start, end, axis, width, rows);
      && |r| == |faces|
      && r[..start] == faces[..start] && r[end..] == faces[end..]
      && multiset(r[start..end]) == multiset(faces[start..end])
      && multiset(r) == multiset(faces)
  {
    ShapedSlice(faces, start, end, rows, width);
    var mid := SliceAfterBuild(faces[start..end], axis, width, rows);
    SliceAfterBuildPermutes(faces[start..end], axis, width, rows);
    SpliceFrame(faces, start, end, mid);
  }

  /** A sequence is its prefix, one element and its suffix. */
  lemma ThreeParts(s: seq<Entry>, m: nat)
    requires m < |s|
    ensures multiset(s) == multiset(s[..m]) + multiset{s[m]} + multiset(s[m + 1..])
  {
    assert s == s[..m] + [s[m]] + s[m + 1..];
  }

  /** The median split: a non-empty slice gives a node on `axis` whose left
      subtree holds the lower half, rounded down, and whose right subtree
      holds the rest after the median. */
  lemma BuildSliceShape(s: seq<Entry>, axis: nat, width: nat, rows: nat)
    requires AllShaped(s, rows, width) && axis < width
    ensures var t := BuildSlice(s, axis, width, rows);
      && (t == Nil <==> |s| == 0)
      && (t.Node? ==> && t.axis == axis
                      && CountNodes(t.left) == |s| / 2
                      && CountNodes(t.right) == |s| - |s| / 2 - 1)
  {
    if |s| > 0 {
      var ordered, next := BuildSliceNode(s, axis, width, rows);
    }
  }

  /** `build(faces)` (lines 51-57): an empty list leaves the tree as it was;
      otherwise the tree is rebuilt from scratch over all entries, starting
      on axis 0. */
  function Build(t: KDTree, faces: seq<Entry>): (r: KDTree)
    requires Uniform(faces)
    ensures |faces| == 0 ==> r == t
    ensures |faces| > 0 ==> && r.size == |faces|
                            && Entries(r.root) == multiset(faces)
                            && CountNodes(r.root) == r.size
  {
    if |faces| == 0 then t
    else
      var rows, width := |faces[0].face|, Cols(faces[0].face);
      UniformShaped(faces);
      KDTree(BuildSlice(faces, 0, width, rows), |faces|)
  }

  /** A uniform non-empty list has one common positive shape. */
  lemma UniformShaped(faces: seq<Entry>)
    requires Uniform(faces) && |faces| > 0
    ensures AllShaped(faces, |faces[0].face|, Cols(faces[0].face))
    ensures Cols(faces[0].face) > 0
  {
    assert SameShape(faces[0].face, faces[0].face);
  }

  // ---------------------------------------------------------------------
  // Structural invariants of a built tree
  // ---------------------------------------------------------------------

  /** At every node split on axis `a`, left entries have column-`a` mean at
      most the node's and right entries at least the node's. */
  predicate Ordered(t: Tree) {
    match t
    case Nil => true
    case Node(e, a, l, r) =>
      && Keyable(e, a)
      && (forall x | x in Entries(l) :: Keyable(x, a) && Key(x, a) <= Key(e, a))
      && (forall x | x in Entries(r) :: Keyable(x, a) && Key(x, a) >= Key(e, a))
      && Ordered(l) && Ordered(r)
  }

  /** The root splits on `axis`, each child on the next axis modulo `cols`. */
  predicate RoundRobin(t: Tree, axis: nat, cols: nat)
    requires cols > 0
  {
    match t
    case Nil => true
    case Node(_, a, l, r) =>
      && a == axis && a < cols
      && RoundRobin(l, (axis + 1) % cols, cols)
      && RoundRobin(r, (axis + 1) % cols, cols)
  }

  /** One level of `_build_tree`: a non-empty slice becomes a node holding
      the median of the sorted slice, over the two sorted halves. */
  lemma BuildSliceNode(s: seq<Entry>, axis: nat, width: nat, rows: nat)
    returns (ordered: seq<Entry>, next: nat)
    requires AllShaped(s, rows, width) && axis < width && |s| > 0
    ensures |ordered| == |s| && multiset(ordered) == multiset(s)
    ensures forall i :: 0 <= i < |ordered| ==> Keyable(ordered[i], axis)
    ensures forall i, j :: 0 <= i < j < |ordered| ==> Key(ordered[i], axis) <= Key(ordered[j], axis)
    ensures next < width && next == (axis + 1) % width
    ensures AllShaped(ordered[..|s| / 2], rows, width) && AllShaped(ordered[|s| / 2 + 1..], rows, width)
    ensures BuildSlice(s, axis, width, rows) ==
      Node(ordered[|s| / 2], axis, BuildSlice(ordered[..|s| / 2], next, width, rows),
           BuildSlice(ordered[|s| / 2 + 1..], next, width, rows))
  {
    ShapedKeyable(s, axis, rows, width);
    ordered := SortSlice(s, axis);
    HalvesShaped(s, axis, width, rows);
    next := NextAxis(axis, width);
  }

  /** At the node `_build_tree` makes, the left subtree's keys are at most
      the median's and the right subtree's at least. */
  lemma NodeKeys(s: seq<Entry>, axis: nat, width: nat, rows: nat)
    requires AllShaped(s, rows, width) && axis < width && |s| > 0
    ensures var t := BuildSlice(s, axis, width, rows);
      && t.Node? && Keyable(t.entry, axis)
      && (forall x | x in Entries(t.left) :: Keyable(x, axis) && Key(x, axis) <= Key(t.entry, axis))
      && (forall x | x in Entries(t.right) :: Keyable(x, axis) && Key(x, axis) >= Key(t.entry, axis))
  {
    var ordered, next := BuildSliceNode(s, axis, width, rows);
    var m := |ordered| / 2;
    var left := BuildSlice(ordered[..m], next, width, rows);
    var right := BuildSlice(ordered[m + 1..], next, width, rows);
    BelowMedian(ordered, m, axis, left);
    AboveMedian(ordered, m, axis, right);
  }

  /** `_build_tree` yields an ordered tree. */
  lemma {:induction false} BuildSliceOrdered(s: seq<Entry>, axis: nat, width: nat, rows: nat)
    requires AllShaped(s, rows, width) && axis < width
    ensures Ordered(BuildSlice(s, axis, width, rows))
    decreases |s|
  {
    if |s| > 0 {
      var ordered, next := BuildSliceNode(s, axis, width, rows);
      var m := |s| / 2;
      BuildSliceOrdered(ordered[..m], next, width, rows);
      BuildSliceOrdered(ordered[m + 1..], next, width, rows);
      NodeKeys(s, axis, width, rows);
    }
  }

  /** `_build_tree` splits on `axis` at the root and on the next axis modulo
      the column count below it. */
  lemma {:induction false} BuildSliceRoundRobin(s: seq<Entry>, axis: nat, width: nat, rows: nat)
    requires AllShaped(s, rows, width) && axis < width
    ensures RoundRobin(BuildSlice(s, axis, width, rows), axis, width)
    decreases |s|
  {
    if |s| > 0 {
      var ordered, next := BuildSliceNode(s, axis, width, rows);
      var m := |s| / 2;
      BuildSliceRoundRobin(ordered[..m], next, width, rows);
      BuildSliceRoundRobin(ordered[m + 1..], next, width, rows);
    }
  }

  /** Every tree `build` makes is ordered and splits on axes 0, 1, ... in
      turn, wrapping at the column count. */
  lemma BuildOrdered(t: KDTree, faces: seq<Entry>)
    requires Uniform(faces) && |faces| > 0
    ensures Ordered(Build(t, faces).root)
    ensures RoundRobin(Build(t, faces).root, 0, Cols(faces[0].face))
  {
    UniformShaped(faces);
    BuildSliceOrdered(faces, 0, Cols(faces[0].face), |faces[0].face|);
    BuildSliceRoundRobin(faces, 0, Cols(faces[0].face), |faces[0].face|);
  }

  /** Entries drawn from before the median of a key-sorted range have keys at
      most the median's. */
  lemma BelowMedian(ordered: seq<Entry>, m: nat, axis: nat, left: Tree)
    requires m < |ordered| && Entries(left) == multiset(ordered[..m])
    requires forall i :: 0 <= i < |ordered| ==> Keyable(ordered[i], axis)
    requires forall i, j :: 0 <= i < j < |ordered| ==> Key(ordered[i], axis) <= Key(ordered[j], axis)
    ensures forall x | x in Entries(left) :: Keyable(x, axis) && Key(x, axis) <= Key(ordered[m], axis)
  {
    forall x | x in Entries(left)
      ensures Keyable(x, axis) && Key(x, axis) <= Key(ordered[m], axis)
    {
      assert x in ordered[..m];
      var i :| 0 <= i < m && ordered[..m][i] == x;
      assert ordered[i] == x;
    }
  }

  /** Entries drawn from after the median have keys at least the median's. */
  lemma AboveMedian(ordered: seq<Entry>, m: nat, axis: nat, right: Tree)
    requires m < |ordered| && Entries(right) == multiset(ordered[m + 1..])
    requires forall i :: 0 <= i < |ordered| ==> Keyable(ordered[i], axis)
    requires forall i, j :: 0 <= i < j < |ordered| ==> Key(ordered[i], axis) <= Key(ordered[j], axis)
    ensures forall x | x in Entries(right) :: Keyable(x, axis) && Key(x, axis) >= Key(ordered[m], axis)
  {
    forall x | x in Entries(right)
      ensures Keyable(x, axis) && Key(x, axis) >= Key(ordered[m], axis)
    {
      assert x in ordered[m + 1..];
      var i :| 0 <= i < |ordered| - m - 1 && ordered[m + 1..][i] == x;
      assert ordered[m + 1 + i] == x;
    }
  }

  // ---------------------------------------------------------------------
  // Persistence outcomes
  // ---------------------------------------------------------------------

  /** What `kd_tree.pkl` holds: nothing (`FileNotFoundError`) or a pickled root. */
  datatype PickleFile = Missing | Stored(root: Tree)

  /** `save` (lines 107-113): an empty tree writes nothing; otherwise the
      file holds the root itself, axes and shape included. */
  function Save(t: KDTree, file: PickleFile): (r: PickleFile)
    ensures t.root == Nil ==> r == file
    ensures t.root != Nil ==> r == Stored(t.root)
  {
    if t.root == Nil then file else Stored(t.root)
  }

  /** `load` (lines 115-128): a missing file gives the empty tree; otherwise
      the root is restored and `size` recomputed by counting nodes. */
  function Load(file: PickleFile): (r: KDTree)
    ensures file.Missing? ==> r == Empty
    ensures file.Stored? ==> r.root == file.root && r.size == |Entries(file.root)|
  {
    match file
    case Missing => KDTree(Nil, 0)
    case Stored(root) => KDTree(root, CountNodes(root))
  }

  /** Saving any tree with a root and loading it back restores the root,
      with `size` recomputed as its node count. */
  lemma SaveLoad(t: KDTree, file: PickleFile)
    requires t.root != Nil
    ensures Load(Save(t, file)) == KDTree(t.root, CountNodes(t.root))
  {
  }

  /** Saving a built tree and loading it back restores it exactly, `size`
      included: the node count equals the size `build` recorded. */
  lemma LoadAfterBuild(t: KDTree, faces: seq<Entry>, file: PickleFile)
    requires Uniform(faces) && |faces| > 0
    ensures Load(Save(Build(t, faces), file)) == Build(t, faces)
  {
    var b := Build(t, faces);
    assert b.root != Nil;
  }
}
