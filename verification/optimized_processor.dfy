/** The tree-backed face processor (`app/optimized_face_processor.py`). The
    database is the list of `(user_id, face)` pairs it returns, in insertion
    order; the processor state is that list together with the k-d tree. The
    tree is meant to hold exactly the stored pairs, swapped to
    `(face, user_id)`. */
module OptimizedFaceProcessor {
  import opened Wrappers
  import opened FaceArray
  import opened KdTree
  import opened KdSearch
  import FaceProcessor

  /** The database rows and the tree of one processor. */
  datatype Processor = Processor(store: seq<(string, Face)>, tree: KDTree)

  /** `[(face_data, user_id) for user_id, face_data in faces]` (lines 34, 79). */
  function TreeData(store: seq<(string, Face)>): (r: seq<Entry>)
    ensures |r| == |store|
    ensures forall i :: 0 <= i < |store| ==> r[i].face == store[i].1 && r[i].uid == store[i].0
  {
    seq(|store|, i requires 0 <= i < |store| => Entry(store[i].1, store[i].0))
  }

  /** All stored faces share one shape, as the tree requires. */
  predicate Consistent(store: seq<(string, Face)>) {
    Uniform(TreeData(store))
  }

  /** The tree is the one built from the current store. */
  predicate InSync(p: Processor) {
    Consistent(p.store) && p.tree == Build(Empty, TreeData(p.store))
  }

  /** `_load_faces_to_tree()` (lines 29-35): builds only when the store is
      non-empty; an empty store leaves the tree as it was. */
  function LoadFacesToTree(p: Processor): (r: Processor)
    requires Consistent(p.store)
    ensures r.store == p.store
    ensures |p.store| == 0 ==> r == p
    ensures |p.store| > 0 ==> && r.tree.size == |p.store|
                              && Entries(r.tree.root) == multiset(TreeData(p.store))
  {
    if |p.store| > 0 then Processor(p.store, Build(p.tree, TreeData(p.store))) else p
  }

  /** `__init__` (lines 21-27): an empty tree, then loaded from the store.
      A freshly constructed processor has the tree of its store. */
  function Init(store: seq<(string, Face)>): (r: Processor)
    requires Consistent(store)
    ensures r.store == store
    ensures InSync(r)
  {
    LoadFacesToTree(Processor(store, Empty))
  }

  /** A non-empty build does not depend on the tree it replaces. */
  lemma BuildReplaces(t: KDTree, faces: seq<Entry>)
    requires Uniform(faces) && |faces| > 0
    ensures Build(t, faces) == Build(Empty, faces)
  {
  }

  /** `face is None or face.size == 0`. */
  predicate Unusable(face: Option<Face>) {
    face.None? || NoElements(face.value)
  }

  /** `recognize_face(face)` (lines 84-96): an unusable probe is rejected
      without consulting the tree; otherwise the tree's answer is returned
      unchanged unless its distance exceeds 0.6. */
  function Recognize(p: Processor, face: Option<Face>): (r: (Option<string>, Dist))
    requires Unusable(face) || Fits(p.tree.root, face.value)
    ensures Unusable(face) || p.tree.root == Nil ==> r == (None, Inf)
    ensures r.0.None? <==> r.1.Inf?
    ensures r.0.Some? ==> && r.1.value <= 0.6
                          && exists x :: && x in Entries(p.tree.root) && x.uid == r.0.value
                                         && r.1 == Fin(MeanAbsDiff(x.face, face.value))
  {
    if Unusable(face) then (None, Inf)
    else
      var (uid, distance) := FindNearest(p.tree, face.value);
      if Exceeds(distance, 0.6) then (None, Inf) else (uid, distance)
  }

  /** The acceptance rule: a usable probe gets the tree's answer exactly when
      the tree's distance is at most 0.6, so 0.6 itself is accepted. */
  lemma RecognizeThreshold(p: Processor, face: Face)
    requires !NoElements(face) && Fits(p.tree.root, face)
    ensures var nearest := FindNearest(p.tree, face);
      Recognize(p, Some(face)) ==
        if nearest.1.Fin? && nearest.1.value <= 0.6 then nearest else (None, Inf)
  {
  }

  /** What the tree of a synchronized processor answers is a stored pair:
      its id, and the distance from its face. */
  lemma FoundInStore(p: Processor, face: Face) returns (j: nat)
    requires InSync(p) && Fits(p.tree.root, face) && p.tree.root != Nil
    ensures j < |p.store| && p.store[j].0 == FindNearest(p.tree, face).0.value
    ensures SameShape(p.store[j].1, face)
    ensures FindNearest(p.tree, face).1 == Fin(MeanAbsDiff(p.store[j].1, face))
  {
    var data := TreeData(p.store);
    InSyncEntries(p);
    var r := FindNearest(p.tree, face);
    var x :| x in Entries(p.tree.root) && x.uid == r.0.value && r.1 == Fin(MeanAbsDiff(x.face, face));
    assert x in multiset(data);
    assert x in data;
    j :| 0 <= j < |data| && data[j] == x;
    assert x.face == p.store[j].1;
  }

  /** A stored face of a synchronized processor is recognized at distance 0,
      as the id of some stored pair holding that very face. */
  lemma RecognizeStored(p: Processor, i: nat)
    requires InSync(p) && i < |p.store|
    ensures var face := p.store[i].1;
      && Fits(p.tree.root, face)
      && Recognize(p, Some(face)).1 == Fin(0.0)
      && exists j :: 0 <= j < |p.store| && p.store[j].0 == Recognize(p, Some(face)).0.value
                                        && p.store[j].1 == face
  {
    var data := TreeData(p.store);
    var face := p.store[i].1;
    BuildFindsEveryFace(Empty, data, i);
    assert !NoElements(face) by {
      assert data[i].face == face;
      assert SameShape(face, data[0].face);
      assert |face[0]| > 0;
    }
    assert Recognize(p, Some(face)) == FindNearest(p.tree, face);
    var j := FoundInStore(p, face);
    MeanAbsDiffZeroIff(p.store[j].1, face);
  }

  /** `add_face(face, user_id)` as written (lines 68-82). An unusable face
      is refused without touching anything. Otherwise the row is inserted,
      but `BiometricDatabase.add_face` returns `None`, so the guard on
      line 74 always returns `False` before the rebuild on lines 78-80:
      the tree keeps its old contents. */
  function AddFace(p: Processor, face: Option<Face>, uid: string): (r: (Processor, bool))
    ensures Unusable(face) ==> r == (p, false)
    ensures !Unusable(face) ==> r.0 == Processor(p.store + [(uid, face.value)], p.tree) && !r.1
  {
    if Unusable(face) then (p, false)
    else (Processor(p.store + [(uid, face.value)], p.tree), false)
  }

  /** A one-pixel face. */
  const Probe: Face := [[1.0]]

  /** As written, adding the first face leaves the tree empty: the processor
      is out of sync and does not recognize the face it has just stored. */
  lemma AddFaceLosesFace()
    ensures InSync(Init([]))
    ensures var (p, ok) := AddFace(Init([]), Some(Probe), "u");
      && !ok && |p.store| == 1 && !InSync(p)
      && Recognize(p, Some(Probe)) == (None, Inf)
  {
    assert !NoElements(Probe) by {
      assert |Probe[0]| == 1;
    }
    var (p, ok) := AddFace(Init([]), Some(Probe), "u");
    assert p.tree == Empty;
    assert p.store == [("u", Probe)];
    assert TreeData(p.store) == [Entry(Probe, "u")];
    assert Build(Empty, TreeData(p.store)).size == 1;
  }

  /** `add_face` as its comments describe it: insert, then rebuild the tree
      from the full store and report success. */
  function AddFaceRebuilding(p: Processor, face: Option<Face>, uid: string): (r: (Processor, bool))
    requires Unusable(face) || Consistent(p.store + [(uid, face.value)])
    ensures Unusable(face) ==> r == (p, false)
    ensures !Unusable(face) ==> && r.1 && r.0.store == p.store + [(uid, face.value)]
                                && r.0.tree.size == |r.0.store|
                                && Entries(r.0.tree.root) == multiset(TreeData(r.0.store))
  {
    if Unusable(face) then (p, false)
    else
      var store := p.store + [(uid, face.value)];
      (Processor(store, Build(p.tree, TreeData(store))), true)
  }

  /** The corrected `add_face` keeps a synchronized processor synchronized. */
  lemma AddFaceRebuildingInSync(p: Processor, face: Face, uid: string)
    requires InSync(p) && !NoElements(face) && Consistent(p.store + [(uid, face)])
    ensures InSync(AddFaceRebuilding(p, Some(face), uid).0)
  {
    BuildReplaces(p.tree, TreeData(p.store + [(uid, face)]));
  }

  /** The tree of a synchronized processor holds exactly the stored pairs. */
  lemma InSyncEntries(p: Processor)
    requires InSync(p)
    ensures Entries(p.tree.root) == multiset(TreeData(p.store))
  {
    if |p.store| == 0 {
      assert TreeData(p.store) == [];
    }
  }

  /** The corrected `add_face` adds exactly the new pair to the tree. */
  lemma AddFaceRebuildingEntries(p: Processor, face: Face, uid: string)
    requires InSync(p) && !NoElements(face) && Consistent(p.store + [(uid, face)])
    ensures Entries(AddFaceRebuilding(p, Some(face), uid).0.tree.root) ==
      Entries(p.tree.root) + multiset{Entry(face, uid)}
  {
    InSyncEntries(p);
    assert TreeData(p.store + [(uid, face)]) == TreeData(p.store) + [Entry(face, uid)];
  }

  /** With the corrected `add_face`, the face just added is recognized at
      distance 0. */
  lemma AddFaceRebuildingRecognizes(p: Processor, face: Face, uid: string)
    requires InSync(p) && !NoElements(face) && Consistent(p.store + [(uid, face)])
    ensures var q := AddFaceRebuilding(p, Some(face), uid).0;
      && Fits(q.tree.root, face)
      && Recognize(q, Some(face)).0.Some?
      && Recognize(q, Some(face)).1 == Fin(0.0)
  {
    var q := AddFaceRebuilding(p, Some(face), uid).0;
    AddFaceRebuildingInSync(p, face, uid);
    assert q.store[|p.store|].1 == face;
    RecognizeStored(q, |p.store|);
  }

  // ---------------------------------------------------------------------
  // The linear scan as a reference for the tree
  // ---------------------------------------------------------------------

  /** The tree's distance, made total so that the linear scan can use it;
      the source only ever compares faces of one shape. */
  function TreeMetric(f: Face, g: Face): real {
    if SameShape(f, g) then MeanAbsDiff(f, g) else 0.0
  }

  /** The tree never answers with a face closer than the brute-force scan's
      minimum: whatever it returns is at least as far as the first minimum
      the linear search of `app/face_processor.py` finds with the same metric. */
  lemma TreeNoCloserThanScan(p: Processor, face: Face, k: nat)
    requires InSync(p) && |p.store| > 0 && SameShape(face, p.store[0].1)
    requires FaceProcessor.IsFirstMin(p.store, face, TreeMetric, |p.store|, k)
    ensures Fits(p.tree.root, face)
    ensures var d := FindNearest(p.tree, face).1;
      d.Fin? && d.value >= FaceProcessor.DistTo(p.store, face, TreeMetric, k)
  {
    BuildFits(Empty, TreeData(p.store), face);
    var j := FoundInStore(p, face);
    MeanAbsDiffSymmetric(p.store[j].1, face);
    assert FaceProcessor.DistTo(p.store, face, TreeMetric, j) == MeanAbsDiff(face, p.store[j].1);
  }
}
