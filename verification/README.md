# Face store k-d tree, recognizers and frame counter in Dafny

This project models the core of a face-recognition service:

- **The k-d tree of `app/kd_tree.py`.** Every node holds one `(face_data, user_id)` entry and the axis it was split on.
  - *Build.* `_build_tree` sorts the slice it is given by the mean of column `axis` of each face. It stores the median at the node and recurses on the two halves. The axis advances round-robin modulo the column count.
  - *Search.* `_find_nearest` is a branch-and-bound search. Its distance is the mean absolute elementwise difference. The near side is chosen by comparing column means, and the far side is visited only while the gap between the means is below the best distance so far.
  - *Persistence.* `save` writes the root. `load` restores it and recounts the nodes; a missing file gives the empty tree.
- **The two face processors.**
  - `app/optimized_face_processor.py` keeps the database rows and a tree built from them. It accepts the tree's answer up to distance 0.6.
  - `app/face_processor.py` scans the rows linearly for the first entry at the smallest distance and accepts it below 1000.
- **The run detection of `frame_count` in `main.py` (lines 52-70).** From one bit per video frame it finds the earliest longest block of consecutive frames with a face.

Modules, one per file:

| file | module | what it holds |
|---|---|---|
| `wrappers.dfy` | `Wrappers` | `Option` and `Dist` (a real distance or `float('inf')`) with the comparisons the source makes |
| `face_array.dfy` | `FaceArray` | faces as `seq<seq<real>>`, column means, mean absolute difference |
| `stable_sort.dfy` | `StableSort` | Python's `sorted(..., key=...)` as a stable decorate-sort-undecorate |
| `kd_tree.dfy` | `KdTree` | nodes, `_build_tree`, `build`, `count_nodes`, `save`, `load` |
| `kd_search.dfy` | `KdSearch` | `_find_nearest`, `find_nearest` |
| `face_processor.dfy` | `FaceProcessor` | the linear-search `add_face` and `recognize_face` |
| `optimized_processor.dfy` | `OptimizedFaceProcessor` | the tree-backed processor |
| `frame_count.dfy` | `FrameCount` | the run detection of `frame_count` |

Modelling choices:

- **Numbers.** Floats are exact reals, and `float('inf')` is `Dist.Inf`.
- **The database.** It is the list of `(user_id, face)` pairs that `get_all_faces` returns. An insert is modelled as appending to that list (see "## Left out" for the row order).
- **One face shape.** The source checks no dimensions. Every operation here requires that all faces involved share one shape. Every caller produces faces of one shape: both processors resize detected faces to 100x100 (`app/optimized_face_processor.py`, line 61; `app/face_processor.py`, lines 32 and 97), and the generated test faces are reshaped to 100x100 (`app/data_generator.py`, line 69).
- **`_build_tree` and its slice.** `_build_tree(faces, start, end, axis)` sorts and splits only the slice `faces[start:end]`. The only other value it reads is `faces[0][0].shape[1]` (lines 45 and 47), the column count used for the children's axis. So `BuildSlice` builds the tree from the slice and that count. The in-place write-back of line 40 is modelled separately: `SliceAfterBuild` and `ListAfterBuild` give the list after the call returns.
- **The column count.** `faces[0][0].shape[1]` is the common column count `width`. Every face of the list has it, so it does not matter which face is first after the write-back.

## Model

| member | source | states |
|---|---|---|
| KdTree.CountNodes | app/kd_tree.py:121-125 | the node count equals the number of stored entries, and it is 0 exactly for the empty tree |
| KdTree.SortSlice | app/kd_tree.py:28-31 | the sorted slice is a permutation of the slice whose column-`axis` means never decrease |
| KdTree.SortSliceStable | app/kd_tree.py:30-31 | among entries with equal column-`axis` mean, the sorted slice keeps the order of the slice, which decides the median when several entries share its key |
| FaceArray.ColumnMeanBounds | app/kd_tree.py:76-77 | the column mean (`ColumnMean`, and the sort key `KdTree.Key` built on it) lies between any lower and upper bound of the column's values |
| FaceArray.MeanAbsDiff | app/kd_tree.py:68 | the mean absolute difference of two faces of one shape is never negative |
| StableSort.Sort | app/kd_tree.py:30-31 | sorting keeps the length and the multiset of elements and orders the keys |
| StableSort.SortItems | app/kd_tree.py:30-31 | sorting the key-decorated entries permutes the undecorated entries |
| StableSort.SortIsStable | app/kd_tree.py:30-31 | for every key value, the elements with that key keep their input order (Python's sort is stable) |
| KdTree.NextAxis | app/kd_tree.py:45-47 | the child axis is the next column, wrapping to 0 after the last, and is always a valid column |
| KdTree.BuildSlice | app/kd_tree.py:21-49 | the tree built from a slice stores exactly the slice's entries, with multiplicity |
| KdTree.BuildSliceShape | app/kd_tree.py:24-47 | the result is `None` exactly for an empty slice; otherwise the node is on `axis`, the left subtree has `len // 2` nodes and the right subtree the rest minus the median |
| KdTree.BuildSliceNode | app/kd_tree.py:28-47 | one level of the build: the node holds the median of a key-sorted permutation of the slice, and its children are built from the two halves on axis `(axis + 1) % cols` |
| KdTree.NodeKeys | app/kd_tree.py:30-47 | at the node built from a slice, left entries have column-`axis` mean at most the median's and right entries at least |
| KdTree.BuildSliceOrdered | app/kd_tree.py:21-49 | every node of a built tree has its left subtree's keys at most and its right subtree's keys at least its own on its axis |
| KdTree.BuildSliceRoundRobin | app/kd_tree.py:44-47 | the root splits on `axis` and each child on the next axis modulo the column count |
| KdTree.SliceAfterBuild | app/kd_tree.py:40-47 | after the write-back and the recursive rewrites the slice keeps its length |
| KdTree.ListAfterBuild | app/kd_tree.py:40-47 | the list after `_build_tree(faces, start, end, axis)` keeps its length and is unchanged before `start` and from `end` on |
| KdTree.SliceAfterBuildPermutes | app/kd_tree.py:40-47 | the in-place write-back and the recursive rewrites only permute the slice |
| KdTree.ListAfterBuildFrame | app/kd_tree.py:28-47 | after `_build_tree(faces, start, end, axis)` the list keeps its length, is unchanged outside `[start, end)` and holds a permutation of the range inside it |
| KdTree.Build | app/kd_tree.py:51-57 | an empty list leaves root and size as they were; otherwise size is the list length, the tree stores exactly the listed entries, and its node count equals size |
| KdTree.BuildOrdered | app/kd_tree.py:51-57 | every tree `build` makes satisfies the ordering invariant and splits on axes 0, 1, ... round-robin |
| KdTree.Save | app/kd_tree.py:107-113 | an empty tree leaves the file alone; otherwise the file holds exactly the tree's root |
| KdTree.Load | app/kd_tree.py:115-128 | a missing file gives no root and size 0; otherwise the root is restored and size is its node count |
| KdTree.SaveLoad | app/kd_tree.py:107-128 | saving any tree with a root and loading it back restores that root, with size its node count |
| KdTree.LoadAfterBuild | app/kd_tree.py:107-128 | saving a built tree and loading it back restores the same root and the size `build` recorded |
| FaceArray.MeanAbsDiffZeroIff | app/kd_tree.py:68 | the distance between two faces of one shape is 0 exactly when the faces are equal |
| FaceArray.MeanAbsDiffSymmetric | app/kd_tree.py:105 | the distance does not depend on the order of the two faces |
| KdSearch.NearestFrom | app/kd_tree.py:59-94 | the best distance never increases; a changed best is a stored entry at exactly its distance from the target and strictly closer than before; a non-empty subtree always yields a best when none was given |
| KdSearch.NearestFromNonNegative | app/kd_tree.py:59-94 | the search never reports a negative distance |
| KdSearch.ExactMatchKept | app/kd_tree.py:71-73 | once the best distance is 0 no later node replaces it, so among exact copies the first visited wins |
| KdSearch.NearestFromFindsCopy | app/kd_tree.py:76-92 | self-match: in an ordered tree, searching for a stored face from any non-negative best ends at distance 0 |
| KdSearch.FindNearest | app/kd_tree.py:96-105 | an empty tree gives `(None, inf)`; a non-empty one always gives the id of a stored entry and that entry's distance from the target |
| KdSearch.FindNearestStored | app/kd_tree.py:96-105 | probing an ordered tree with a stored face returns distance 0 and the id of an entry holding that face |
| KdSearch.BuildFits | app/kd_tree.py:51-57 | every split axis of a built tree is a column of the stored faces' shape, so the search is defined for any target of that shape |
| KdSearch.BuildFindsEveryFace | app/kd_tree.py:51-105 | probing a built tree with any of the faces it was built from returns an id at distance 0 |
| OptimizedFaceProcessor.TreeData | app/optimized_face_processor.py:34 | the tree data has one entry per row, holding that row's face and user id |
| OptimizedFaceProcessor.LoadFacesToTree | app/optimized_face_processor.py:29-35 | an empty store leaves the processor unchanged; otherwise the tree holds exactly the swapped rows and its size is the row count |
| OptimizedFaceProcessor.Init | app/optimized_face_processor.py:21-27 | a new processor keeps the rows it was given, and its tree is the one built from them |
| OptimizedFaceProcessor.Recognize | app/optimized_face_processor.py:84-96 | a missing or empty probe, or an empty tree, gives `(None, inf)`; an id comes with a finite distance at most 0.6 that is a stored entry's distance from the probe |
| OptimizedFaceProcessor.RecognizeThreshold | app/optimized_face_processor.py:90-96 | a usable probe gets the tree's answer unchanged exactly when its distance is at most 0.6, and `(None, inf)` otherwise |
| OptimizedFaceProcessor.FoundInStore | app/optimized_face_processor.py:84-96 | in a synchronized processor the tree's answer names a stored row, and the distance is that row's face's distance from the probe |
| OptimizedFaceProcessor.RecognizeStored | app/optimized_face_processor.py:84-96 | a stored face is recognized at distance 0 as the id of a row holding that very face |
| OptimizedFaceProcessor.AddFace | app/optimized_face_processor.py:68-82 | as written: an unusable face is refused without changes; otherwise the row is appended, the tree is left as it was, and the result is `False` |
| OptimizedFaceProcessor.AddFaceLosesFace | app/optimized_face_processor.py:74-80 | as written, adding a face to an empty processor leaves it out of sync and unable to recognize that face |
| OptimizedFaceProcessor.AddFaceRebuilding | app/optimized_face_processor.py:68-82 | an unusable face is refused without changes; otherwise the row is appended, the tree holds exactly the swapped rows, and the result is `True` |
| OptimizedFaceProcessor.AddFaceRebuildingInSync | app/optimized_face_processor.py:77-80 | rebuilding after an insert keeps the tree synchronized with the rows |
| OptimizedFaceProcessor.AddFaceRebuildingEntries | app/optimized_face_processor.py:77-80 | the rebuilt tree holds the old entries plus exactly the new one |
| OptimizedFaceProcessor.AddFaceRebuildingRecognizes | app/optimized_face_processor.py:68-96 | the face just added is recognized at distance 0 |
| OptimizedFaceProcessor.TreeNoCloserThanScan | app/optimized_face_processor.py:90 | the tree's distance is never below the linear scan's minimum with the same metric |
| FaceProcessor.AddFace | app/face_processor.py:36-41 | a missing face raises `ValueError` and nothing is written; otherwise exactly the new row is appended |
| FaceProcessor.Scan | app/face_processor.py:49-61 | before any row there is no best and the distance is `inf`; afterwards the best is a scanned row and the distance is its distance |
| FaceProcessor.ScanFindsFirstMin | app/face_processor.py:55-61 | the loop ends on the first row at the smallest distance: none is closer, and every earlier row is farther |
| FaceProcessor.FirstMinUnique | app/face_processor.py:55-61 | there is only one first minimum |
| FaceProcessor.FirstMinExists | app/face_processor.py:55-61 | every non-empty store has a first minimum |
| FaceProcessor.Recognize | app/face_processor.py:43-63 | a missing probe or an empty store gives `None`; any id returned belongs to a stored row |
| FaceProcessor.RecognizeFirstMin | app/face_processor.py:49-63 | the result is the first minimum's id if its distance is below 1000, and `None` exactly when every row is at least 1000 away |
| FaceProcessor.AddThenRecognize | app/face_processor.py:36-63 | with a distance that is 0 from a face to itself, a face just added is recognized as the id of a row at distance 0 |
| FrameCount.Pad | main.py:52-53 | a 0 is added before the first frame and after the last, and the frames sit between them unchanged |
| FrameCount.Step | main.py:54-58 | one loop step adds a run exactly on a 0->1 step and never changes any run before the latest |
| FrameCount.Transitions | main.py:54-58 | the first run is always the sentinel `[0, 0]` of line 33, and a run besides it exists once a 1 has been seen last |
| FrameCount.TransitionsInv | main.py:54-58 | the loop keeps every closed run a maximal block of 1s, the runs separated and in order, and every 1 seen so far inside a run |
| FrameCount.FrameRunsAreBlocks | main.py:52-58 | the recorded runs after the sentinel are exactly the maximal blocks of face frames, in order and separated, covering every face frame |
| FrameCount.RunsIffFace | main.py:54-59 | a run besides the sentinel is recorded exactly when some frame has a face |
| FrameCount.Select | main.py:60-64 | if `res` is never bound, `max_vr` keeps its initial value; otherwise `res` is one of the runs and `max_vr` is its span, which beats the initial value |
| FrameCount.SelectEarliestLongest | main.py:60-64 | the selection binds `res` exactly when some span beats the initial `max_vr`, and then it is the earliest run of greatest span |
| FrameCount.SelectBindsIffLongRun | main.py:59-64 | with `max_vr = 0`, `res` is bound exactly when some run spans more than one frame |
| FrameCount.LongRunIffAdjacent | main.py:54-64 | some run spans more than one frame exactly when two consecutive frames have a face |
| FrameCount.FrameCount | main.py:52-70 | on success, `fin` is the length of the reported range `res`; what that range is, is stated by the lemmas below |
| FrameCount.FrameCountNoFaces | main.py:59-69 | with no face in any frame the result is `res = [0, 0]`, `fin = 1` |
| FrameCount.FrameCountUnbound | main.py:59-66 | `res` is read unbound exactly when some frame has a face but no two consecutive frames do |
| FrameCount.FrameCountLong | main.py:59-69 | in the success case `fin > 1` exactly when two consecutive frames have a face |
| FrameCount.FrameCountLongFace | main.py:59-69 | a success with some face has `fin > 1` and two consecutive face frames |
| FrameCount.FrameCountSelected | main.py:59-69 | a success with some face reports the selected run shifted to 0-based indices and its length |
| FrameCount.FrameCountLongest | main.py:52-69 | a success with some face reports a maximal block inside the video with `fin >= 2`; no block is longer, and every block starting earlier is shorter |
| FrameCount.FrameCountSingleFrame | main.py:59-66 | a video of one frame with a face leaves `res` unbound |
| FrameCount.FrameCountFixed | main.py:59-69 | the corrected selection always succeeds |
| FrameCount.FixedLongest | main.py:52-69 | the corrected selection reports the earliest longest block of face frames, of any length |
| FrameCount.FixedAgrees | main.py:59-69 | wherever the function as written succeeds, the corrected one gives the same result |

## Left out

- **I/O.** Pickle serialization and file access in `save` and `load` are not modelled. The file is a value that is either missing or holds a root. Exceptions other than `FileNotFoundError` are not modelled either.
- **Floating point.** Rounding, NaN and numpy broadcasting are left out. Distances and means are exact reals.
- **Face detection and the foreign libraries.**
  - OpenCV, `face_recognition` and the Haar cascade set-up in the constructor (`app/optimized_face_processor.py`, lines 11-18) are left out.
  - So are `detect_face` and the video-reading loop of `frame_count` (`main.py`, lines 28-51). The frame bits are an input instead.
- **The databases.**
  - PostgreSQL and SQLite are left out. A store is the list of rows, and an insert appends to it.
  - `clear_database` and `_retrain_recognizer` are left out.
- **FaceProcessor.Recognize: the distance is a parameter.** `np.linalg.norm(face - stored_face)` is not modelled, because the scan does not depend on which metric it uses. With the tree's metric plugged in (`TreeMetric`), the scan serves as a brute-force reference.
- **KdSearch.NearestFrom: no nearest-neighbour claim.** The contract does not say the answer is the nearest stored face. The pruning test `abs(target_val - node_val) < best_dist` is not a lower bound for the mean absolute difference: a column-mean gap can exceed the whole-array mean absolute difference. What is proved instead:
  - the best never gets worse
  - the answer is a stored entry at exactly the reported distance
  - the tree never reports a face closer than the scan's minimum (`TreeNoCloserThanScan`)
  - a stored face finds itself (`NearestFromFindsCopy`)
- **OptimizedFaceProcessor.TreeMetric: 0.0 across shapes.** It returns 0.0 for faces of different shapes, where numpy would raise or broadcast. It is only ever applied to faces of one shape.
- **Builds and searches over faces of mixed shape.** `Build`, `FindNearest` and `Recognize` require faces of one shape, and targets that fit the tree. The source does not check this. Mixed shapes are not always an error there:
  - the sort key (line 31) reads only column `axis`, so `_build_tree` accepts faces with different row counts;
  - `node.face_data - target` (line 68) broadcasts a `1 x c` target against an `r x c` face.
  These mixed-shape runs are not modelled. Every caller produces 100x100 faces.
- **Row order.** `get_all_faces` (`app/database.py`, line 50) runs `SELECT user_id, face_data FROM faces` with no `ORDER BY`, so the database does not promise any row order. The model assumes the rows come back in insertion order. That order decides which row is the first minimum of the linear search (`app/face_processor.py`, line 59) and the order of equal keys in the tree's stable sort.
- **Python's sort.** `sorted` (Timsort) is modelled as a stable insertion sort. Only its result matters: a stable permutation ordered by key, and that result is unique.
- **Aliasing in `main.py`.** Line 64 binds `res` to a run of `frame_array_cur`, and lines 65-66 then shift that run in place. The run list is not read afterwards, so this is not modelled.

## Findings

| source | as written | input that shows it | evidently intended | confidence | as-written member | corrected member |
|---|---|---|---|---|---|---|
| app/optimized_face_processor.py:74-80 | `if not self.db.add_face(user_id, face): return False`. `BiometricDatabase.add_face` (app/database.py:34-44) always returns `None`, so the row is inserted, `False` is returned, and the tree is never rebuilt | an empty processor, then `add_face([[1.0]], "u")`: the row is stored, `False` is returned, and `recognize_face([[1.0]])` gives `(None, inf)` | after a successful insert, rebuild the tree from all rows and return `True` | high (not executed) | OptimizedFaceProcessor.AddFace, OptimizedFaceProcessor.AddFaceLosesFace | OptimizedFaceProcessor.AddFaceRebuilding, OptimizedFaceProcessor.AddFaceRebuildingInSync, OptimizedFaceProcessor.AddFaceRebuildingRecognizes |
| main.py:59-66 | `max_vr` starts at 0 and a run replaces it only when `max_vr < cur_vr`, so a run of one frame (span 0) is never chosen; when every run has a single frame, `res` is never bound and line 65 raises `UnboundLocalError` | frame bits `[1]`: one frame with a face | report the earliest longest run of face frames, even one a single frame long | high (not executed) | FrameCount.FrameCount, FrameCount.FrameCountSingleFrame, FrameCount.FrameCountUnbound | FrameCount.FrameCountFixed, FrameCount.FixedLongest, FrameCount.FixedAgrees |
