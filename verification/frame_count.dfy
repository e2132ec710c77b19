/** The post-processing of `frame_count` in `main.py` (lines 52-70): given
    one bit per video frame (a face was detected in it or not), find the
    longest stretch of consecutive frames with a face. The list is padded
    with a 0 at both ends, every 0->1 step opens a run and every 1->0 step
    closes it, and the earliest run of greatest length (at least 2) is
    reported with 0-based frame indices and its length. */
module FrameCount {
  import opened Wrappers

  /** `[start, end]` of a run of frames, as indices into the padded list. */
  datatype Run = Run(first: int, last: int)

  /** What `frame_count` ends with: `(res, fin)`, or the failure when `res`
      is read without ever having been bound. */
  datatype Outcome = Unbound | Frames(start: int, end: int, fin: int)

  /** Lines 52-53: a 0 inserted before the first frame and after the last. */
  function Pad(bits: seq<bool>): (a: seq<bool>)
    ensures |a| == |bits| + 2 && !a[0] && !a[|a| - 1]
    ensures forall i :: 0 <= i < |bits| ==> a[i + 1] == bits[i]
  {
    [false] + bits + [false]
  }

  /** One iteration of the loop of lines 54-58 at index `y` of the padded
      list: a 0->1 step appends `[y, y]`, a 1->0 step sets the end of the
      latest run to `y - 1`, anything else changes nothing. */
  function Step(a: seq<bool>, y: nat, rs: seq<Run>): (r: seq<Run>)
    requires 1 <= y < |a| && |rs| >= 1
    ensures |r| == if !a[y - 1] && a[y] then |rs| + 1 else |rs|
    ensures r[..|rs| - 1] == rs[..|rs| - 1]
  {
    if !a[y - 1] && a[y] then rs + [Run(y, y)]
    else if a[y - 1] && !a[y] then rs[..|rs| - 1] + [Run(rs[|rs| - 1].first, y - 1)]
    else rs
  }

  /** The runs after the iterations `1 .. x - 1`, starting from the sentinel
      `[[0, 0]]` of line 33. */
  function Transitions(a: seq<bool>, x: nat): (rs: seq<Run>)
    requires 1 <= x <= |a| && !a[0]
    ensures |rs| >= 1 && rs[0] == Run(0, 0)
    ensures a[x - 1] ==> |rs| > 1
    decreases x
  {
    if x == 1 then [Run(0, 0)] else Step(a, x - 1, Transitions(a, x - 1))
  }

  /** The runs recorded for a frame sequence. */
  function FrameRuns(bits: seq<bool>): (rs: seq<Run>)
    ensures |rs| >= 1 && rs[0] == Run(0, 0)
  {
    Transitions(Pad(bits), |Pad(bits)|)
  }

  // ---------------------------------------------------------------------
  // What the recorded runs are
  // ---------------------------------------------------------------------

  /** `r` is a maximal block of 1s of the padded list `a`. */
  predicate ClosedRun(a: seq<bool>, r: Run) {
    && 1 <= r.first <= r.last && r.last + 1 < |a|
    && !a[r.first - 1] && !a[r.last + 1]
    && forall i | r.first <= i <= r.last :: a[i]
  }

  /** `r` was opened and the 1s have continued up to index `x - 1`. */
  predicate OpenRun(a: seq<bool>, r: Run, x: nat) {
    && 1 <= r.first == r.last < x <= |a|
    && !a[r.first - 1]
    && forall i | r.first <= i < x :: a[i]
  }

  /** Run `k` is still open after iteration `x - 1` exactly when it is the
      latest one and index `x - 1` holds a 1; every other run is closed. */
  predicate RunOk(a: seq<bool>, x: nat, rs: seq<Run>, k: nat)
    requires 1 <= x <= |a| && k < |rs|
  {
    if k == |rs| - 1 && a[x - 1] then OpenRun(a, rs[k], x)
    else ClosedRun(a, rs[k]) && rs[k].last + 1 < x
  }

  /** Index `i` lies inside some recorded run. */
  predicate Covered(a: seq<bool>, x: nat, rs: seq<Run>, i: nat)
    requires 1 <= x <= |a|
  {
    exists k | 1 <= k < |rs| :: rs[k].first <= i && (i <= rs[k].last || (k == |rs| - 1 && a[x - 1]))
  }

  /** The sentinel comes first, and a run is open whenever index `x - 1` is a 1. */
  predicate Basic(a: seq<bool>, x: nat, rs: seq<Run>) {
    && 1 <= x <= |a| && !a[0]
    && |rs| >= 1 && rs[0] == Run(0, 0)
    && (a[x - 1] ==> |rs| > 1)
  }

  /** Every run after the sentinel is open or closed as `RunOk` says. */
  predicate RunsOk(a: seq<bool>, x: nat, rs: seq<Run>)
    requires 1 <= x <= |a|
  {
    forall k | 1 <= k < |rs| :: RunOk(a, x, rs, k)
  }

  /** Later runs start at least two places after earlier ones end. */
  predicate Separated(rs: seq<Run>) {
    forall j, k | 1 <= j < k < |rs| :: rs[j].last + 1 < rs[k].first
  }

  /** Every 1 before index `x` lies in a recorded run. */
  predicate AllCovered(a: seq<bool>, x: nat, rs: seq<Run>)
    requires 1 <= x <= |a|
  {
    forall i | 0 <= i < x && a[i] :: Covered(a, x, rs, i)
  }

  /** The loop invariant of lines 54-58. */
  predicate Inv(a: seq<bool>, x: nat, rs: seq<Run>) {
    Basic(a, x, rs) && RunsOk(a, x, rs) && Separated(rs) && AllCovered(a, x, rs)
  }

  /** 0 followed by 0: nothing changes and nothing is open. */
  lemma StepZeroZero(a: seq<bool>, x: nat, rs: seq<Run>)
    requires x < |a| && Inv(a, x, rs) && !a[x - 1] && !a[x]
    ensures Inv(a, x + 1, rs)
  {
    var y := x + 1;
    forall k | 1 <= k < |rs|
      ensures RunOk(a, y, rs, k)
    {
      assert RunOk(a, x, rs, k);
    }
    forall i | 0 <= i < y && a[i]
      ensures Covered(a, y, rs, i)
    {
      assert Covered(a, x, rs, i);
    }
  }

  /** 1 followed by 1: the open run extends by one index. */
  lemma StepOneOne(a: seq<bool>, x: nat, rs: seq<Run>)
    requires x < |a| && Inv(a, x, rs) && a[x - 1] && a[x]
    ensures Inv(a, x + 1, rs)
  {
    var y := x + 1;
    forall k | 1 <= k < |rs|
      ensures RunOk(a, y, rs, k)
    {
      assert RunOk(a, x, rs, k);
    }
    forall i | 0 <= i < y && a[i]
      ensures Covered(a, y, rs, i)
    {
      if i < x {
        assert Covered(a, x, rs, i);
      } else {
        assert RunOk(a, x, rs, |rs| - 1);
      }
    }
  }

  /** 0 followed by 1: a new run opens at `x`. */
  lemma StepZeroOne(a: seq<bool>, x: nat, rs: seq<Run>)
    requires x < |a| && Inv(a, x, rs) && !a[x - 1] && a[x]
    ensures Inv(a, x + 1, rs + [Run(x, x)])
  {
    var rs' := rs + [Run(x, x)];
    var y := x + 1;
    forall k | 1 <= k < |rs'|
      ensures RunOk(a, y, rs', k)
    {
      if k < |rs| {
        assert RunOk(a, x, rs, k);
      }
    }
    forall j, k | 1 <= j < k < |rs'|
      ensures rs'[j].last + 1 < rs'[k].first
    {
      assert RunOk(a, x, rs, j);
    }
    forall i | 0 <= i < y && a[i]
      ensures Covered(a, y, rs', i)
    {
      if i < x {
        assert Covered(a, x, rs, i);
        var k :| 1 <= k < |rs| && rs[k].first <= i && i <= rs[k].last;
        assert rs'[k] == rs[k];
      } else {
        assert rs'[|rs|] == Run(x, x);
      }
    }
  }

  /** The runs after a 1->0 step at `x`. */
  function CloseLast(rs: seq<Run>, x: nat): seq<Run>
    requires |rs| >= 1
  {
    rs[..|rs| - 1] + [Run(rs[|rs| - 1].first, x - 1)]
  }

  /** 1 followed by 0: the open run closes at `x - 1`. */
  lemma StepOneZeroRuns(a: seq<bool>, x: nat, rs: seq<Run>)
    requires x < |a| && Inv(a, x, rs) && a[x - 1] && !a[x]
    ensures RunsOk(a, x + 1, CloseLast(rs, x))
  {
    var rs' := CloseLast(rs, x);
    var n := |rs| - 1;
    var y := x + 1;
    assert RunOk(a, x, rs, n);
    forall k | 1 <= k < |rs'|
      ensures RunOk(a, y, rs', k)
    {
      if k < n {
        assert RunOk(a, x, rs, k);
        assert rs'[k] == rs[k];
      }
    }
  }

  lemma StepOneZeroSeparated(a: seq<bool>, x: nat, rs: seq<Run>)
    requires x < |a| && Inv(a, x, rs) && a[x - 1] && !a[x]
    ensures Separated(CloseLast(rs, x))
  {
    var rs' := CloseLast(rs, x);
    forall j, k | 1 <= j < k < |rs'|
      ensures rs'[j].last + 1 < rs'[k].first
    {
      assert rs'[j] == rs[j];
      assert rs'[k].first == rs[k].first;
    }
  }

  lemma StepOneZeroCovered(a: seq<bool>, x: nat, rs: seq<Run>)
    requires x < |a| && Inv(a, x, rs) && a[x - 1] && !a[x]
    ensures AllCovered(a, x + 1, CloseLast(rs, x))
  {
    var rs' := CloseLast(rs, x);
    var n := |rs| - 1;
    var y := x + 1;
    forall i | 0 <= i < y && a[i]
      ensures Covered(a, y, rs', i)
    {
      assert Covered(a, x, rs, i);
      var k :| 1 <= k < |rs| && rs[k].first <= i && (i <= rs[k].last || (k == n && a[x - 1]));
      assert rs'[k].first == rs[k].first;
      if k < n {
        assert rs'[k] == rs[k];
      } else {
        assert rs'[k].last == x - 1;
      }
    }
  }

  /** One iteration keeps the invariant. */
  lemma StepInv(a: seq<bool>, x: nat, rs: seq<Run>)
    requires x < |a| && Inv(a, x, rs)
    ensures Inv(a, x + 1, Step(a, x, rs))
  {
    if !a[x - 1] && !a[x] {
      StepZeroZero(a, x, rs);
    } else if !a[x - 1] && a[x] {
      StepZeroOne(a, x, rs);
    } else if a[x - 1] && a[x] {
      StepOneOne(a, x, rs);
    } else {
      assert Step(a, x, rs) == CloseLast(rs, x);
      StepOneZeroRuns(a, x, rs);
      StepOneZeroSeparated(a, x, rs);
      StepOneZeroCovered(a, x, rs);
    }
  }

  /** The loop keeps its invariant over every iteration. */
  lemma {:induction false} TransitionsInv(a: seq<bool>, x: nat)
    requires 1 <= x <= |a| && !a[0]
    ensures Inv(a, x, Transitions(a, x))
    decreases x
  {
    if x > 1 {
      TransitionsInv(a, x - 1);
      StepInv(a, x - 1, Transitions(a, x - 1));
    }
  }

  /** `bits[lo..hi]` is a maximal block of 1s. */
  predicate IsBlock(bits: seq<bool>, lo: int, hi: int) {
    && 0 <= lo <= hi < |bits|
    && (lo == 0 || !bits[lo - 1])
    && (hi == |bits| - 1 || !bits[hi + 1])
    && forall i | lo <= i <= hi :: bits[i]
  }

  /** A closed run of the padded list is a block of the frames, shifted by one. */
  lemma ClosedRunIsBlock(bits: seq<bool>, r: Run)
    requires ClosedRun(Pad(bits), r)
    ensures IsBlock(bits, r.first - 1, r.last - 1)
  {
    var a := Pad(bits);
    forall i | r.first - 1 <= i <= r.last - 1
      ensures bits[i]
    {
      assert a[i + 1] == bits[i];
    }
  }

  /** After the last iteration nothing is open. */
  lemma FinalRunsOk(bits: seq<bool>)
    ensures RunsOk(Pad(bits), |Pad(bits)|, FrameRuns(bits))
  {
    TransitionsInv(Pad(bits), |Pad(bits)|);
  }

  /** After the last iteration every 1 of the padded list is in a run. */
  lemma FinalCovered(bits: seq<bool>)
    ensures AllCovered(Pad(bits), |Pad(bits)|, FrameRuns(bits))
  {
    TransitionsInv(Pad(bits), |Pad(bits)|);
  }

  /** Every run after the sentinel is a block of the frames. */
  lemma FrameRunsBlocks(bits: seq<bool>)
    ensures var rs := FrameRuns(bits);
      forall k | 1 <= k < |rs| :: IsBlock(bits, rs[k].first - 1, rs[k].last - 1)
  {
    var a := Pad(bits);
    var rs := FrameRuns(bits);
    FinalRunsOk(bits);
    forall k | 1 <= k < |rs|
      ensures IsBlock(bits, rs[k].first - 1, rs[k].last - 1)
    {
      assert RunOk(a, |a|, rs, k);
      ClosedRunIsBlock(bits, rs[k]);
    }
  }

  /** Every frame with a face lies in a recorded run. */
  lemma FrameRunsCover(bits: seq<bool>)
    ensures var rs := FrameRuns(bits);
      forall i | 0 <= i < |bits| && bits[i] ::
        exists k | 1 <= k < |rs| :: rs[k].first - 1 <= i <= rs[k].last - 1
  {
    var a := Pad(bits);
    var rs := FrameRuns(bits);
    FinalCovered(bits);
    forall i | 0 <= i < |bits| && bits[i]
      ensures exists k | 1 <= k < |rs| :: rs[k].first - 1 <= i <= rs[k].last - 1
    {
      assert a[i + 1];
      assert Covered(a, |a|, rs, i + 1);
    }
  }

  /** Lines 54-58 record, after the sentinel, exactly the maximal blocks of
      1s of the frames, in order, shifted by the padding: each recorded run
      is a block, runs are separated by at least one 0, and every frame with
      a face lies in one of them. */
  lemma FrameRunsAreBlocks(bits: seq<bool>)
    ensures var rs := FrameRuns(bits);
      && (forall k | 1 <= k < |rs| :: IsBlock(bits, rs[k].first - 1, rs[k].last - 1))
      && (forall j, k | 1 <= j < k < |rs| :: rs[j].last + 1 < rs[k].first)
      && (forall i | 0 <= i < |bits| && bits[i] ::
            exists k | 1 <= k < |rs| :: rs[k].first - 1 <= i <= rs[k].last - 1)
  {
    TransitionsInv(Pad(bits), |Pad(bits)|);
    FrameRunsBlocks(bits);
    FrameRunsCover(bits);
  }

  // ---------------------------------------------------------------------
  // Choosing the longest run
  // ---------------------------------------------------------------------

  /** `cur_vr` of line 61: a run's length minus one. */
  function Span(r: Run): int {
    r.last - r.first
  }

  /** The loop of lines 60-64 over the first `n` runs, with `max_vr`
      starting at `init` (0 in the source): the final `max_vr` and the index
      of the run `res` refers to, if it was ever bound. A run replaces the
      choice only when its span is strictly larger. */
  function Select(rs: seq<Run>, n: nat, init: int): (r: (int, Option<nat>))
    requires n <= |rs|
    ensures r.1.None? ==> r.0 == init
    ensures r.1.Some? ==> r.1.value < n && r.0 == Span(rs[r.1.value]) > init
  {
    if n == 0 then (init, None)
    else
      var prev := Select(rs, n - 1, init);
      var cur := Span(rs[n - 1]);
      if prev.0 < cur then (cur, Some(n - 1)) else prev
  }

  /** The selection is the earliest run of greatest span when some span
      exceeds `init`, and nothing at all otherwise. */
  lemma {:induction false} SelectEarliestLongest(rs: seq<Run>, n: nat, init: int)
    requires n <= |rs|
    ensures Select(rs, n, init).1.None? <==> forall j | 0 <= j < n :: Span(rs[j]) <= init
    ensures Select(rs, n, init).1.Some? ==>
      var k := Select(rs, n, init).1.value;
      && (forall j | 0 <= j < n :: Span(rs[j]) <= Span(rs[k]))
      && (forall j | 0 <= j < k :: Span(rs[j]) < Span(rs[k]))
  {
    if n > 0 {
      SelectEarliestLongest(rs, n - 1, init);
    }
  }

  /** `frame_count`'s result from its frame bits (lines 52-70). */
  function FrameCount(bits: seq<bool>): (r: Outcome)
    ensures r.Frames? ==> r.fin == r.end - r.start + 1
  {
    var rs := FrameRuns(bits);
    if |rs| != 1 then
      var (_, res) := Select(rs, |rs|, 0);
      if res.None? then Unbound
      else
        var run := rs[res.value];
        Frames(run.first - 1, run.last - 1, run.last - run.first + 1)
    else Frames(0, 0, 1)
  }

  /** Some frame has a face. */
  predicate SomeFace(bits: seq<bool>) {
    exists i | 0 <= i < |bits| :: bits[i]
  }

  /** Two consecutive frames have a face. */
  predicate AdjacentFaces(bits: seq<bool>) {
    exists i | 0 <= i < |bits| - 1 :: bits[i] && bits[i + 1]
  }

  /** Every run after the sentinel is a block of the frames. */
  predicate BlockRuns(bits: seq<bool>, rs: seq<Run>) {
    forall k | 1 <= k < |rs| :: IsBlock(bits, rs[k].first - 1, rs[k].last - 1)
  }

  /** Every frame with a face lies in a run after the sentinel. */
  predicate CoverRuns(bits: seq<bool>, rs: seq<Run>) {
    forall i | 0 <= i < |bits| && bits[i] :: exists k | 1 <= k < |rs| :: rs[k].first - 1 <= i <= rs[k].last - 1
  }

  /** The recorded runs of a frame sequence are its blocks. */
  lemma FrameRunsFacts(bits: seq<bool>)
    ensures BlockRuns(bits, FrameRuns(bits)) && CoverRuns(bits, FrameRuns(bits))
    ensures Separated(FrameRuns(bits))
  {
    FrameRunsAreBlocks(bits);
  }

  /** Blocks recorded after the sentinel exist exactly when some frame has a face. */
  lemma RunsIffFaceOf(bits: seq<bool>, rs: seq<Run>)
    requires BlockRuns(bits, rs) && CoverRuns(bits, rs)
    ensures |rs| > 1 <==> SomeFace(bits)
  {
    if |rs| > 1 {
      assert IsBlock(bits, rs[1].first - 1, rs[1].last - 1);
      assert bits[rs[1].first - 1];
    }
  }

  /** Two consecutive face frames lie in one run, which then spans them. */
  lemma AdjacentGivesLongRun(bits: seq<bool>, rs: seq<Run>) returns (k: nat)
    requires BlockRuns(bits, rs) && CoverRuns(bits, rs) && AdjacentFaces(bits)
    ensures 1 <= k < |rs| && Span(rs[k]) > 0
  {
    var i :| 0 <= i < |bits| - 1 && bits[i] && bits[i + 1];
    k :| 1 <= k < |rs| && rs[k].first - 1 <= i <= rs[k].last - 1;
    assert IsBlock(bits, rs[k].first - 1, rs[k].last - 1);
  }

  /** A block spanning more than one frame starts with two face frames. */
  lemma LongRunGivesAdjacent(bits: seq<bool>, rs: seq<Run>, k: nat)
    requires BlockRuns(bits, rs) && 1 <= k < |rs| && Span(rs[k]) > 0
    ensures AdjacentFaces(bits)
  {
    assert IsBlock(bits, rs[k].first - 1, rs[k].last - 1);
    var i := rs[k].first - 1;
    assert bits[i] && bits[i + 1];
  }

  /** A run besides the sentinel is recorded exactly when some frame has a face. */
  lemma RunsIffFace(bits: seq<bool>)
    ensures |FrameRuns(bits)| > 1 <==> SomeFace(bits)
  {
    FrameRunsFacts(bits);
    RunsIffFaceOf(bits, FrameRuns(bits));
  }

  /** Some run spans more than one frame. */
  predicate HasLongRun(rs: seq<Run>) {
    exists k | 0 <= k < |rs| :: Span(rs[k]) > 0
  }

  /** The selection as written binds `res` exactly when some run spans more
      than one frame. */
  lemma SelectBindsIffLongRun(rs: seq<Run>)
    ensures Select(rs, |rs|, 0).1.Some? <==> HasLongRun(rs)
  {
    SelectEarliestLongest(rs, |rs|, 0);
    if Select(rs, |rs|, 0).1.Some? {
      var k := Select(rs, |rs|, 0).1.value;
      assert Span(rs[k]) > 0;
    }
  }

  /** Some run spans more than one frame exactly when two consecutive
      frames have a face. */
  lemma LongRunIffAdjacent(bits: seq<bool>)
    ensures HasLongRun(FrameRuns(bits)) <==> AdjacentFaces(bits)
  {
    var rs := FrameRuns(bits);
    FrameRunsFacts(bits);
    if AdjacentFaces(bits) {
      var k := AdjacentGivesLongRun(bits, rs);
    }
    if HasLongRun(rs) {
      var k :| 0 <= k < |rs| && Span(rs[k]) > 0;
      LongRunGivesAdjacent(bits, rs, k);
    }
  }

  /** No frame with a face: `res = [0, 0]` and `fin = 1`. */
  lemma FrameCountNoFaces(bits: seq<bool>)
    requires !SomeFace(bits)
    ensures FrameCount(bits) == Frames(0, 0, 1)
  {
    RunsIffFace(bits);
  }

  /** `res` is left unbound exactly when some frame has a face but no two
      consecutive frames do: every run then has span 0, and no span beats
      the initial `max_vr = 0`. */
  lemma FrameCountUnbound(bits: seq<bool>)
    ensures FrameCount(bits) == Unbound <==> SomeFace(bits) && !AdjacentFaces(bits)
  {
    var rs := FrameRuns(bits);
    assert FrameCount(bits) == Unbound <==> |rs| != 1 && Select(rs, |rs|, 0).1.None?;
    RunsIffFace(bits);
    LongRunIffAdjacent(bits);
    SelectBindsIffLongRun(rs);
  }

  /** `fin` exceeds 1 exactly when two consecutive frames have a face. */
  lemma FrameCountLong(bits: seq<bool>)
    requires FrameCount(bits).Frames?
    ensures FrameCount(bits).fin > 1 <==> AdjacentFaces(bits)
  {
    if SomeFace(bits) {
      FrameCountLongFace(bits);
    } else {
      FrameCountNoFaces(bits);
      if AdjacentFaces(bits) {
        AdjacentGivesFace(bits);
      }
    }
  }

  /** With a face somewhere, a success has `fin > 1` and two consecutive
      face frames. */
  lemma FrameCountLongFace(bits: seq<bool>)
    requires FrameCount(bits).Frames? && SomeFace(bits)
    ensures FrameCount(bits).fin > 1 && AdjacentFaces(bits)
  {
    var k := FrameCountSelected(bits);
    FrameRunsFacts(bits);
    LongRunGivesAdjacent(bits, FrameRuns(bits), k);
  }

  /** Two consecutive face frames are in particular a face frame. */
  lemma AdjacentGivesFace(bits: seq<bool>)
    requires AdjacentFaces(bits)
    ensures SomeFace(bits)
  {
    var i :| 0 <= i < |bits| - 1 && bits[i] && bits[i + 1];
    assert bits[i];
  }

  /** Two maximal blocks that share a frame are the same block. */
  lemma BlocksMeet(bits: seq<bool>, lo: int, hi: int, lo': int, hi': int, i: int)
    requires IsBlock(bits, lo, hi) && IsBlock(bits, lo', hi')
    requires lo <= i <= hi && lo' <= i <= hi'
    ensures lo == lo' && hi == hi'
  {
  }

  /** The earliest run of greatest span among blocks recorded in order is
      the earliest longest block. */
  lemma EarliestLongestBlock(bits: seq<bool>, rs: seq<Run>, k: nat)
    requires BlockRuns(bits, rs) && CoverRuns(bits, rs) && Separated(rs)
    requires 1 <= k < |rs|
    requires forall j | 1 <= j < |rs| :: Span(rs[j]) <= Span(rs[k])
    requires forall j | 1 <= j < k :: Span(rs[j]) < Span(rs[k])
    ensures forall lo, hi | IsBlock(bits, lo, hi) :: hi - lo <= Span(rs[k])
    ensures forall lo, hi | IsBlock(bits, lo, hi) && lo < rs[k].first - 1 :: hi - lo < Span(rs[k])
  {
    forall lo, hi | IsBlock(bits, lo, hi)
      ensures hi - lo <= Span(rs[k])
      ensures lo < rs[k].first - 1 ==> hi - lo < Span(rs[k])
    {
      assert bits[lo];
      var j :| 1 <= j < |rs| && rs[j].first - 1 <= lo <= rs[j].last - 1;
      BlocksMeet(bits, lo, hi, rs[j].first - 1, rs[j].last - 1, lo);
    }
  }

  /** A successful `frame_count` with a face somewhere reports the run the
      selection loop ends on, which is not the sentinel. */
  lemma FrameCountSelected(bits: seq<bool>) returns (k: nat)
    requires FrameCount(bits).Frames? && SomeFace(bits)
    ensures var rs := FrameRuns(bits);
      && 1 <= k < |rs|
      && FrameCount(bits) == Frames(rs[k].first - 1, rs[k].last - 1, Span(rs[k]) + 1)
      && (forall j | 0 <= j < |rs| :: Span(rs[j]) <= Span(rs[k]))
      && (forall j | 0 <= j < k :: Span(rs[j]) < Span(rs[k]))
  {
    var rs := FrameRuns(bits);
    RunsIffFace(bits);
    SelectEarliestLongest(rs, |rs|, 0);
    k := Select(rs, |rs|, 0).1.value;
  }

  /** When `frame_count` succeeds with a face somewhere, it reports a maximal
      block of face frames with 0-based bounds inside the video, no block is
      longer than `fin`, and every block that starts earlier is strictly
      shorter. */
  lemma FrameCountLongest(bits: seq<bool>)
    requires FrameCount(bits).Frames? && SomeFace(bits)
    ensures var r := FrameCount(bits);
      && IsBlock(bits, r.start, r.end) && r.fin >= 2
      && (forall lo, hi | IsBlock(bits, lo, hi) :: hi - lo + 1 <= r.fin)
      && (forall lo, hi | IsBlock(bits, lo, hi) && lo < r.start :: hi - lo + 1 < r.fin)
  {
    var rs := FrameRuns(bits);
    var k := FrameCountSelected(bits);
    FrameRunsFacts(bits);
    assert IsBlock(bits, rs[k].first - 1, rs[k].last - 1);
    EarliestLongestBlock(bits, rs, k);
  }

  // ---------------------------------------------------------------------
  // A selection that never leaves `res` unbound
  // ---------------------------------------------------------------------

  /** One frame with a face and nothing else: `frame_count` as written
      fails on line 65, since the only run has span 0 and never beats
      `max_vr = 0`. */
  lemma FrameCountSingleFrame()
    ensures FrameCount([true]) == Unbound
  {
    FrameCountUnbound([true]);
    assert SomeFace([true]) by {
      assert [true][0];
    }
  }

  /** `frame_count` with the selection run over the recorded runs after the
      sentinel and `max_vr` starting below every span, so that a run of a
      single frame can be chosen. */
  function FrameCountFixed(bits: seq<bool>): (r: Outcome)
    ensures r.Frames?
  {
    var rs := FrameRuns(bits);
    if |rs| != 1 then
      var (_, res) := Select(rs[1..], |rs| - 1, -1);
      if res.None? then Frames(0, 0, 1)
      else
        var run := rs[res.value + 1];
        Frames(run.first - 1, run.last - 1, run.last - run.first + 1)
    else Frames(0, 0, 1)
  }

  /** Run over the runs after the sentinel from below every span, the
      selection ends on the earliest of greatest span. */
  lemma SelectTail(rs: seq<Run>) returns (k: nat)
    requires |rs| > 1 && Span(rs[1]) >= 0
    ensures 1 <= k < |rs| && Select(rs[1..], |rs| - 1, -1).1 == Some(k - 1)
    ensures forall j | 1 <= j < |rs| :: Span(rs[j]) <= Span(rs[k])
    ensures forall j | 1 <= j < k :: Span(rs[j]) < Span(rs[k])
  {
    var tail := rs[1..];
    assert tail[0] == rs[1];
    SelectEarliestLongest(tail, |tail|, -1);
    var k' := Select(tail, |tail|, -1).1.value;
    k := k' + 1;
    forall j | 1 <= j < |rs|
      ensures Span(rs[j]) <= Span(rs[k])
    {
      assert rs[j] == tail[j - 1];
    }
    forall j | 1 <= j < k
      ensures Span(rs[j]) < Span(rs[k])
    {
      assert rs[j] == tail[j - 1];
    }
  }

  /** Recorded runs never end before they start. */
  lemma RunSpansNonNegative(bits: seq<bool>)
    ensures forall k | 0 <= k < |FrameRuns(bits)| :: Span(FrameRuns(bits)[k]) >= 0
  {
    var rs := FrameRuns(bits);
    FrameRunsBlocks(bits);
    forall k | 0 <= k < |rs|
      ensures Span(rs[k]) >= 0
    {
      if k > 0 {
        assert IsBlock(bits, rs[k].first - 1, rs[k].last - 1);
      }
    }
  }

  /** The corrected selection ends on a run after the sentinel that has the
      greatest span, every earlier run being strictly shorter. */
  lemma FixedSelected(bits: seq<bool>) returns (k: nat)
    requires SomeFace(bits)
    ensures var rs := FrameRuns(bits);
      && 1 <= k < |rs|
      && FrameCountFixed(bits) == Frames(rs[k].first - 1, rs[k].last - 1, Span(rs[k]) + 1)
      && (forall j | 1 <= j < |rs| :: Span(rs[j]) <= Span(rs[k]))
      && (forall j | 1 <= j < k :: Span(rs[j]) < Span(rs[k]))
  {
    var rs := FrameRuns(bits);
    RunsIffFace(bits);
    RunSpansNonNegative(bits);
    k := SelectTail(rs);
  }

  /** With a face somewhere, the corrected `frame_count` reports the earliest
      longest block of face frames, whatever its length. */
  lemma FixedLongest(bits: seq<bool>)
    requires SomeFace(bits)
    ensures var r := FrameCountFixed(bits);
      && IsBlock(bits, r.start, r.end) && r.fin == r.end - r.start + 1
      && (forall lo, hi | IsBlock(bits, lo, hi) :: hi - lo + 1 <= r.fin)
      && (forall lo, hi | IsBlock(bits, lo, hi) && lo < r.start :: hi - lo + 1 < r.fin)
  {
    var rs := FrameRuns(bits);
    var k := FixedSelected(bits);
    FrameRunsFacts(bits);
    assert IsBlock(bits, rs[k].first - 1, rs[k].last - 1);
    EarliestLongestBlock(bits, rs, k);
  }

  /** The correction changes nothing where `frame_count` as written
      succeeds. */
  lemma FixedAgrees(bits: seq<bool>)
    requires FrameCount(bits).Frames?
    ensures FrameCountFixed(bits) == FrameCount(bits)
  {
    if !SomeFace(bits) {
      RunsIffFace(bits);
    } else {
      var rs := FrameRuns(bits);
      var k := FrameCountSelected(bits);
      var k2 := FixedSelected(bits);
      var s, s2 := Span(rs[k]), Span(rs[k2]);
      assert s <= s2 && s2 <= s;
      if k < k2 || k2 < k {
        assert false;
      }
    }
  }
}
