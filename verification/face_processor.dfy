/** The linear-search face processor (`app/face_processor.py`): the store is
    the list of `(user_id, face)` pairs the database returns, in order;
    `recognize_face` scans it for the first entry at the smallest distance
    and accepts it below 1000. The distance (`np.linalg.norm(face - stored)`
    in the source) is a parameter, so the same scan serves as a brute-force
    reference for any metric. */
module FaceProcessor {
  import opened Wrappers

  /** What `add_face` does: raise `ValueError` or hand back the store after
      the database insert. */
  datatype AddOutcome<F> = ValueError | Added(store: seq<(string, F)>)

  /** `add_face(face, user_id)` (lines 36-41): a missing face raises before
      anything is written; otherwise the pair is appended to the store. */
  function AddFace<F>(store: seq<(string, F)>, face: Option<F>, uid: string): (r: AddOutcome<F>)
    ensures face.None? <==> r.ValueError?
    ensures r.Added? ==> && |r.store| == |store| + 1 && r.store[..|store|] == store
                         && r.store[|store|] == (uid, face.value)
  {
    match face
    case None => ValueError
    case Some(f) => Added(store + [(uid, f)])
  }

  /** Distance from the probe to the `j`-th stored face. */
  function DistTo<F>(store: seq<(string, F)>, p: F, dist: (F, F) -> real, j: nat): real
    requires j < |store|
  {
    dist(p, store[j].1)
  }

  /** Entry `k` is the first entry at the smallest distance among the first
      `n` entries: no entry is closer, and every earlier one is farther. */
  predicate IsFirstMin<F>(store: seq<(string, F)>, p: F, dist: (F, F) -> real, n: nat, k: nat)
    requires n <= |store|
  {
    && k < n
    && (forall j | 0 <= j < n :: DistTo(store, p, dist, k) <= DistTo(store, p, dist, j))
    && (forall j | 0 <= j < k :: DistTo(store, p, dist, j) > DistTo(store, p, dist, k))
  }

  /** The loop of lines 51-61 after its first `n` iterations: the index of
      `best_match` and `min_distance`. An entry replaces the best only when
      it is strictly closer. */
  function Scan<F>(store: seq<(string, F)>, p: F, dist: (F, F) -> real, n: nat): (r: (Option<nat>, Dist))
    requires n <= |store|
    ensures n == 0 <==> r == (None, Inf)
    ensures n > 0 ==> && r.0.Some? && r.0.value < n
                      && r.1 == Fin(DistTo(store, p, dist, r.0.value))
  {
    if n == 0 then (None, Inf)
    else
      var prev := Scan(store, p, dist, n - 1);
      var d := DistTo(store, p, dist, n - 1);
      if Below(d, prev.1) then (Some(n - 1), Fin(d)) else prev
  }

  /** The scan ends on the first entry at the smallest distance. */
  lemma {:induction false} ScanFindsFirstMin<F>(store: seq<(string, F)>, p: F, dist: (F, F) -> real, n: nat)
    requires 0 < n <= |store|
    ensures IsFirstMin(store, p, dist, n, Scan(store, p, dist, n).0.value)
  {
    if n > 1 {
      ScanFindsFirstMin(store, p, dist, n - 1);
    }
  }

  /** There is only one first minimum, so `IsFirstMin` pins the scan down. */
  lemma FirstMinUnique<F>(store: seq<(string, F)>, p: F, dist: (F, F) -> real, n: nat, k: nat, k': nat)
    requires n <= |store| && IsFirstMin(store, p, dist, n, k) && IsFirstMin(store, p, dist, n, k')
    ensures k == k'
  {
    var dk, dk' := DistTo(store, p, dist, k), DistTo(store, p, dist, k');
    assert dk <= dk' && dk' <= dk;
    if k < k' || k' < k {
      assert false;
    }
  }

  /** `recognize_face(face)` (lines 43-63): `None` for a missing probe;
      otherwise the id of the scan's best entry when `min_distance < 1000`,
      else `None`. */
  function Recognize<F>(probe: Option<F>, store: seq<(string, F)>, dist: (F, F) -> real): (r: Option<string>)
    ensures probe.None? || |store| == 0 ==> r.None?
    ensures r.Some? ==> exists k :: 0 <= k < |store| && store[k].0 == r.value
  {
    match probe
    case None => None
    case Some(p) =>
      var (best, m) := Scan(store, p, dist, |store|);
      if Less(m, Fin(1000.0)) then Some(store[best.value].0) else None
  }

  /** What `recognize_face` answers, stated without the loop: the id of the
      first entry at the smallest distance if that distance is below 1000,
      and `None` exactly when every stored face is at least 1000 away. */
  lemma RecognizeFirstMin<F>(p: F, store: seq<(string, F)>, dist: (F, F) -> real, k: nat)
    requires |store| > 0 && IsFirstMin(store, p, dist, |store|, k)
    ensures Recognize(Some(p), store, dist) ==
      if DistTo(store, p, dist, k) < 1000.0 then Some(store[k].0) else None
    ensures Recognize(Some(p), store, dist).None? <==>
      forall j | 0 <= j < |store| :: DistTo(store, p, dist, j) >= 1000.0
  {
    ScanFindsFirstMin(store, p, dist, |store|);
    FirstMinUnique(store, p, dist, |store|, k, Scan(store, p, dist, |store|).0.value);
  }

  /** Every non-empty store has a first minimum. */
  lemma FirstMinExists<F>(p: F, store: seq<(string, F)>, dist: (F, F) -> real) returns (k: nat)
    requires |store| > 0
    ensures IsFirstMin(store, p, dist, |store|, k)
  {
    ScanFindsFirstMin(store, p, dist, |store|);
    k := Scan(store, p, dist, |store|).0.value;
  }

  /** With a distance that is 0 from a face to itself and never negative,
      a face that was just added is recognized, though possibly as an
      earlier entry holding an equally close face. */
  lemma AddThenRecognize<F>(store: seq<(string, F)>, face: F, uid: string, dist: (F, F) -> real)
    requires dist(face, face) == 0.0
    requires forall x, y :: dist(x, y) >= 0.0
    ensures AddFace(store, Some(face), uid).Added?
    ensures var s := AddFace(store, Some(face), uid).store;
      && Recognize(Some(face), s, dist).Some?
      && exists k :: 0 <= k < |s| && s[k].0 == Recognize(Some(face), s, dist).value && dist(face, s[k].1) == 0.0
  {
    var s := AddFace(store, Some(face), uid).store;
    var k := FirstMinExists(face, s, dist);
    assert DistTo(s, face, dist, |store|) == 0.0;
    RecognizeFirstMin(face, s, dist, k);
  }
}
