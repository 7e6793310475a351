/** Cut lists: the sorted mark map of a recording, the frames it removes, and the
    greedy walk that turns a logical frame (cuts removed) into a physical one. */
module CutList {

  /** Only the start and end marks of cuts are loaded into a cut list. */
  datatype MarkKind = CutEnd | CutStart

  datatype Mark = Mark(frame: int, kind: MarkKind)

  /** The mark map, in the key order in which its iterators visit it. */
  type DeleteMap = seq<Mark>

  ghost predicate SortedKeys(m: DeleteMap) {
    && (|m| > 0 ==> 0 <= m[0].frame)
    && forall i, j | 0 <= i < j < |m| :: m[i].frame < m[j].frame
  }

  /** Marks come in start/end pairs: what every pairwise walk over the map relies on. */
  ghost predicate Paired(m: DeleteMap) {
    SortedKeys(m) && |m| % 2 == 0
  }

  function Start(m: DeleteMap, i: nat): int
    requires 2 * i < |m|
  {
    m[2 * i].frame
  }

  function End(m: DeleteMap, i: nat): int
    requires 2 * i + 1 < |m|
  {
    m[2 * i + 1].frame
  }

  /** Frame p lies in one of the first k half-open intervals. */
  predicate CutBy(m: DeleteMap, k: nat, p: int)
    requires 2 * k <= |m|
  {
    k > 0 && (CutBy(m, k - 1, p) || Start(m, k - 1) <= p < End(m, k - 1))
  }

  predicate IsCut(m: DeleteMap, p: int) {
    CutBy(m, |m| / 2, p)
  }

  /** How many of the frames 0 .. n-1 the first k intervals remove. */
  function CutCountBy(m: DeleteMap, k: nat, n: nat): (c: nat)
    requires 2 * k <= |m|
    ensures c <= n
  {
    if n == 0 then 0 else CutCountBy(m, k, n - 1) + (if CutBy(m, k, n - 1) then 1 else 0)
  }

  function CutBelow(m: DeleteMap, n: nat): (c: nat)
    ensures c <= n
  {
    CutCountBy(m, |m| / 2, n)
  }

  /** The logical index of physical frame n: how many frames below it survive. */
  function KeptBelow(m: DeleteMap, n: nat): nat {
    n - CutBelow(m, n)
  }

  /** The accumulated shift after the first k intervals of the greedy walk. */
  function Shift(m: DeleteMap, k: nat, frame: int): int
    requires 2 * k <= |m|
  {
    if k == 0 then 0
    else
      var d := Shift(m, k - 1, frame);
      if Start(m, k - 1) <= frame + d then d + End(m, k - 1) - Start(m, k - 1) else d
  }

  function Offset(m: DeleteMap, frame: int): int {
    Shift(m, |m| / 2, frame)
  }

  function Position(m: DeleteMap, frame: int): int {
    frame + Offset(m, frame)
  }

  /** Total length of the first k intervals. */
  function CutLengthBy(m: DeleteMap, k: nat): int
    requires 2 * k <= |m|
  {
    if k == 0 then 0 else CutLengthBy(m, k - 1) + End(m, k - 1) - Start(m, k - 1)
  }

  function CutLength(m: DeleteMap): int {
    CutLengthBy(m, |m| / 2)
  }

  // ----- counting cut frames ------------------------------------------------------

  /** Nothing at or past the k-th start is removed by the first k intervals. */
  lemma {:induction false} NotCutPast(m: DeleteMap, k: nat, p: int)
    requires Paired(m) && 2 * k <= |m|
    requires k > 0 ==> End(m, k - 1) <= p
    ensures !CutBy(m, k, p)
  {
    if k > 1 {
      NotCutPast(m, k - 1, p);
    }
  }

  lemma {:induction false} CountFlatPast(m: DeleteMap, k: nat, a: nat, b: nat)
    requires Paired(m) && 2 * k <= |m| && a <= b
    requires k > 0 ==> End(m, k - 1) <= a
    ensures CutCountBy(m, k, b) == CutCountBy(m, k, a)
    decreases b
  {
    if a < b {
      CountFlatPast(m, k, a, b - 1);
      NotCutPast(m, k, b - 1);
    }
  }

  /** One more interval adds exactly its overlap with the frames counted. */
  lemma {:induction false} CountOneMore(m: DeleteMap, k: nat, n: nat)
    requires Paired(m) && 2 * k + 2 <= |m|
    ensures CutCountBy(m, k + 1, n) == CutCountBy(m, k, n)
              + (if n <= Start(m, k) then 0 else if n <= End(m, k) then n - Start(m, k) else End(m, k) - Start(m, k))
  {
    if n > 0 {
      CountOneMore(m, k, n - 1);
      if Start(m, k) <= n - 1 {
        NotCutPast(m, k, n - 1);
      }
    }
  }

  lemma {:induction false} CountNone(m: DeleteMap, n: nat)
    ensures CutCountBy(m, 0, n) == 0
  {
    if n > 0 {
      CountNone(m, n - 1);
    }
  }

  /** Past the last end, the number of removed frames is the summed length of the cuts. */
  lemma {:induction false} CutLengthCounts(m: DeleteMap, k: nat, n: nat)
    requires Paired(m) && 2 * k <= |m|
    requires k > 0 ==> End(m, k - 1) <= n
    ensures CutCountBy(m, k, n) == CutLengthBy(m, k)
  {
    if k == 0 {
      CountNone(m, n);
    } else {
      CutLengthCounts(m, k - 1, n);
      CountOneMore(m, k - 1, n);
    }
  }

  lemma CutLengthIsCutFrames(m: DeleteMap, n: nat)
    requires Paired(m)
    requires |m| > 0 ==> m[|m| - 1].frame <= n
    ensures CutLength(m) == CutBelow(m, n)
  {
    CutLengthCounts(m, |m| / 2, n);
  }

  lemma {:induction false} KeptStep(m: DeleteMap, a: nat, b: nat)
    requires a <= b
    ensures KeptBelow(m, a) <= KeptBelow(m, b)
    ensures a < b && !IsCut(m, a) ==> KeptBelow(m, a) < KeptBelow(m, b)
    decreases b
  {
    if a < b {
      KeptStep(m, a, b - 1);
    }
  }

  // ----- the greedy walk -----------------------------------------------------------

  /** After k intervals the walk stands on a frame those intervals keep, and has been
      shifted by exactly the frames they remove below it. */
  lemma {:induction false} WalkInvariant(m: DeleteMap, k: nat, frame: nat)
    requires Paired(m) && 2 * k <= |m|
    ensures Shift(m, k, frame) >= 0
    ensures !CutBy(m, k, frame + Shift(m, k, frame))
    ensures CutCountBy(m, k, frame + Shift(m, k, frame)) == Shift(m, k, frame)
  {
    if k == 0 {
      CountNone(m, frame);
    } else {
      WalkInvariant(m, k - 1, frame);
      var p := frame + Shift(m, k - 1, frame);
      var q := frame + Shift(m, k, frame);
      CountOneMore(m, k - 1, q);
      if Start(m, k - 1) <= p {
        CountFlatPast(m, k - 1, p, q);
        NotCutPast(m, k, q);
      }
    }
  }

  /** The walk lands on the kept frame that has exactly `frame` kept frames below it. */
  lemma PositionIsKept(m: DeleteMap, frame: nat)
    requires Paired(m)
    ensures Offset(m, frame) >= 0
    ensures !IsCut(m, Position(m, frame))
    ensures KeptBelow(m, Position(m, frame)) == frame
    ensures CutBelow(m, Position(m, frame)) == Offset(m, frame)
  {
    WalkInvariant(m, |m| / 2, frame);
  }

  /** Every kept frame is reached, from its own logical index and from no other. */
  lemma PositionReachesKept(m: DeleteMap, p: nat, frame: nat)
    requires Paired(m) && !IsCut(m, p)
    ensures Position(m, frame) == p <==> frame == KeptBelow(m, p)
  {
    PositionIsKept(m, frame);
    var q := Position(m, frame);
    if q < p {
      KeptStep(m, q, p);
    } else {
      KeptStep(m, p, q);
    }
  }

  lemma PositionStrictlyIncreasing(m: DeleteMap, a: nat, b: nat)
    requires Paired(m) && a < b
    ensures Position(m, a) < Position(m, b)
  {
    PositionIsKept(m, a);
    PositionIsKept(m, b);
    if Position(m, b) <= Position(m, a) {
      KeptStep(m, Position(m, b), Position(m, a));
    }
  }

  /** A frame number below zero is before every cut and is left alone. */
  lemma {:induction false} NegativeIsUnshifted(m: DeleteMap, k: nat, frame: int)
    requires Paired(m) && 2 * k <= |m| && frame < 0
    ensures Shift(m, k, frame) == 0
  {
    if k > 0 {
      NegativeIsUnshifted(m, k - 1, frame);
      assert 0 <= m[0].frame <= m[2 * (k - 1)].frame;
    }
  }

  /** A logical frame falls inside the file exactly when fewer kept frames precede it than the file has. */
  lemma PositionWithin(m: DeleteMap, frame: nat, n: nat)
    requires Paired(m)
    ensures Position(m, frame) < n <==> frame < KeptBelow(m, n)
  {
    PositionIsKept(m, frame);
    var p := Position(m, frame);
    if p < n {
      KeptStep(m, p, n);
    } else {
      KeptStep(m, n, p);
    }
  }

  // ----- the helper's count of cut frames --------------------------------------------

  /** The iterator and the running total of the helper's loop. */
  datatype Walk = Walk(pos: nat, frames: int)

  /** One turn of the helper's loop: an entry that does not open a cut is not stepped over. */
  function Turn(m: DeleteMap, w: Walk): (r: Walk)
    requires w.pos < |m|
    ensures w.pos <= r.pos <= |m|
  {
    if m[w.pos].kind != CutStart then w
    else if w.pos + 1 < |m| then Walk(w.pos + 2, w.frames + m[w.pos + 1].frame - m[w.pos].frame)
    else Walk(w.pos + 1, w.frames - m[w.pos].frame)
  }

  function Turns(m: DeleteMap, n: nat): (w: Walk)
    ensures w.pos <= |m|
  {
    if n == 0 then Walk(0, 0)
    else
      var w := Turns(m, n - 1);
      if w.pos < |m| then Turn(m, w) else w
  }

  /** Every entry the loop stops at opens a cut. */
  predicate EvenMarksOpen(m: DeleteMap) {
    forall i | 0 <= i < |m| && i % 2 == 0 :: m[i].kind == CutStart
  }

  lemma {:induction false} TurnsAdvance(m: DeleteMap, n: nat)
    requires forall i | 0 <= i < |m| && i % 2 == 0 && i < 2 * n :: m[i].kind == CutStart
    ensures Turns(m, n).pos == if 2 * n <= |m| then 2 * n else |m|
    ensures 2 * n <= |m| ==> Turns(m, n).frames == CutLengthBy(m, n)
  {
    if n > 0 {
      TurnsAdvance(m, n - 1);
    }
  }

  lemma {:induction false} StuckStays(m: DeleteMap, i: nat, n: nat)
    requires i < |m| && i % 2 == 0 && m[i].kind != CutStart && i <= 2 * n
    requires forall j | 0 <= j < i && j % 2 == 0 :: m[j].kind == CutStart
    ensures Turns(m, n).pos == i
  {
    if 2 * n == i {
      TurnsAdvance(m, n);
    } else {
      StuckStays(m, i, n - 1);
    }
  }

  lemma TurnsStuck(m: DeleteMap, i: nat, n: nat)
    requires i < |m| && i % 2 == 0 && m[i].kind != CutStart
    requires forall j | 0 <= j < i && j % 2 == 0 :: m[j].kind == CutStart
    ensures Turns(m, n).pos <= i
  {
    if 2 * n <= i {
      TurnsAdvance(m, n);
    } else {
      StuckStays(m, i, n);
    }
  }

  function FirstClosed(m: DeleteMap, i: nat): (r: nat)
    requires i % 2 == 0
    requires exists j :: i <= j < |m| && j % 2 == 0 && m[j].kind != CutStart
    requires forall j | 0 <= j < i && j % 2 == 0 :: m[j].kind == CutStart
    ensures r < |m| && r % 2 == 0 && m[r].kind != CutStart
    ensures forall j | 0 <= j < r && j % 2 == 0 :: m[j].kind == CutStart
    decreases |m| - i
  {
    if m[i].kind != CutStart then i else FirstClosed(m, i + 2)
  }

  /** The loop ends exactly when every even entry opens a cut; otherwise it spins in place. */
  lemma CountingTerminatesIff(m: DeleteMap)
    ensures EvenMarksOpen(m) <==> exists n: nat :: Turns(m, n).pos == |m|
  {
    if EvenMarksOpen(m) {
      TurnsAdvance(m, |m|);
    } else {
      var i := FirstClosed(m, 0);
      forall n: nat ensures Turns(m, n).pos < |m| {
        TurnsStuck(m, i, n);
      }
    }
  }

  /** The number of frames the helper's loop reports when it ends. */
  function HelperCount(m: DeleteMap): int {
    CutLength(m) - (if |m| % 2 == 1 then m[|m| - 1].frame else 0)
  }

  lemma HelperCountIsLoopResult(m: DeleteMap)
    requires EvenMarksOpen(m)
    ensures Turns(m, |m|) == Walk(|m|, HelperCount(m))
  {
    var k := |m| / 2;
    TurnsAdvance(m, k);
    assert Turns(m, k) == Walk(2 * k, CutLength(m));
    if |m| == 2 * k + 1 {
      assert m[2 * k].kind == CutStart;
      assert Turns(m, k + 1) == Walk(|m|, HelperCount(m));
      TurnsSettle(m, k + 1, |m|);
    } else {
      TurnsSettle(m, k, |m|);
    }
  }

  lemma {:induction false} TurnsSettle(m: DeleteMap, a: nat, b: nat)
    requires a <= b && Turns(m, a).pos == |m|
    ensures Turns(m, b) == Turns(m, a)
    decreases b
  {
    if a < b {
      TurnsSettle(m, a, b - 1);
    }
  }

  /** The helper's count of the frames a cut list removes. */
  method GetCutFrames(m: DeleteMap) returns (frames: int)
    requires EvenMarksOpen(m)
    ensures frames == Turns(m, |m|).frames
    ensures frames == HelperCount(m)
    ensures |m| % 2 == 0 ==> frames == CutLength(m)
  {
    frames := 0;
    var it := 0;
    ghost var n := 0;
    while it < |m|
      invariant 0 <= it <= |m|
      invariant Turns(m, n) == Walk(it, frames)
      invariant it % 2 == 0 || it == |m|
      invariant n <= it
      decreases |m| - it
    {
      var start, end := 0, 0;
      if m[it].kind == CutStart {
        start := m[it].frame;
        it := it + 1;
        if it < |m| {
          end := m[it].frame;
          it := it + 1;
        }
      }
      frames := frames + end - start;
      n := n + 1;
    }
    TurnsSettle(m, n, |m|);
    HelperCountIsLoopResult(m);
  }

  // ----- what the marks say ----------------------------------------------------------------------

  /** The player goes by the kinds of the marks: a start inside a cut changes nothing, of
      several ends in a row the last one counts, an end in front of all starts cuts from
      frame 0, and a start left open cuts to the end. So the frames from a mark to the next
      are kept only between an end and a start, or after a last end. */
  predicate CutAfter(m: DeleteMap, i: nat)
    requires i < |m|
  {
    m[i].kind == CutStart || (i + 1 < |m| && m[i + 1].kind == CutEnd)
  }

  /** Frame p lies between mark i and the next. */
  predicate Behind(m: DeleteMap, i: nat, p: int) {
    i < |m| && m[i].frame <= p && (i + 1 < |m| ==> p < m[i + 1].frame)
  }

  predicate CutByKind(m: DeleteMap, p: nat) {
    || (|m| > 0 && p < m[0].frame && m[0].kind == CutEnd)
    || exists i | 0 <= i < |m| :: Behind(m, i, p) && CutAfter(m, i)
  }

  /** How many of the frames 0 .. n-1 the marks cut. */
  function CutByKindBelow(m: DeleteMap, n: nat): (c: nat) {
    if n == 0 then 0 else CutByKindBelow(m, n - 1) + (if CutByKind(m, n - 1) then 1 else 0)
  }

  /** Where the frames that begin at mark i end: at the next mark, or with the file. */
  function NextFrame(m: DeleteMap, i: nat, total: int): int {
    if i + 1 < |m| then m[i + 1].frame else total
  }

  /** The cut frames in front of the first mark and behind each of the first k. */
  function KindLengthBy(m: DeleteMap, k: nat, total: int): int
    requires k <= |m|
  {
    if k == 0 then (if |m| > 0 && m[0].kind == CutEnd then m[0].frame else 0)
    else KindLengthBy(m, k - 1, total) + (if CutAfter(m, k - 1) then NextFrame(m, k - 1, total) - m[k - 1].frame else 0)
  }

  function KindLength(m: DeleteMap, total: int): int {
    KindLengthBy(m, |m|, total)
  }

  lemma {:induction false} FlatCount(m: DeleteMap, a: nat, b: nat, cut: bool)
    requires a <= b && forall p: nat | a <= p < b :: CutByKind(m, p) == cut
    ensures CutByKindBelow(m, b) == CutByKindBelow(m, a) + (if cut then b - a else 0)
    decreases b
  {
    if a < b {
      FlatCount(m, a, b - 1, cut);
    }
  }

  /** Between two marks in a row, either all frames are cut or none. */
  lemma KindBehindMark(m: DeleteMap, i: nat, p: nat)
    requires SortedKeys(m) && Behind(m, i, p)
    ensures CutByKind(m, p) == CutAfter(m, i)
  {
    assert m[0].frame <= m[i].frame;
    assert forall j | 0 <= j < |m| && Behind(m, j, p) :: j == i;
  }

  lemma KindBeforeMarks(m: DeleteMap, p: nat)
    requires SortedKeys(m) && (|m| > 0 ==> p < m[0].frame)
    ensures CutByKind(m, p) == (|m| > 0 && m[0].kind == CutEnd)
  {
    assert forall j | 0 <= j < |m| :: m[0].frame <= m[j].frame;
  }

  lemma {:induction false} KindLengthCounts(m: DeleteMap, k: nat, total: nat)
    requires SortedKeys(m) && k <= |m| && (|m| > 0 ==> m[|m| - 1].frame <= total)
    ensures CutByKindBelow(m, if k < |m| then m[k].frame else total) == KindLengthBy(m, k, total)
  {
    var upTo := if k < |m| then m[k].frame else total;
    if k == 0 {
      forall p: nat | p < upTo ensures CutByKind(m, p) == (|m| > 0 && m[0].kind == CutEnd) {
        KindBeforeMarks(m, p);
      }
      FlatCount(m, 0, upTo, |m| > 0 && m[0].kind == CutEnd);
    } else {
      KindLengthCounts(m, k - 1, total);
      forall p: nat | m[k - 1].frame <= p < upTo ensures CutByKind(m, p) == CutAfter(m, k - 1) {
        KindBehindMark(m, k - 1, p);
      }
      FlatCount(m, m[k - 1].frame, upTo, CutAfter(m, k - 1));
    }
  }

  /** The length read off the marks is the number of frames of the file that they cut. */
  lemma KindLengthIsCutFrames(m: DeleteMap, total: nat)
    requires SortedKeys(m) && (|m| > 0 ==> m[|m| - 1].frame <= total)
    ensures CutByKindBelow(m, total) == KindLength(m, total)
  {
    KindLengthCounts(m, |m|, total);
  }

  // ----- when counting is right --------------------------------------------------------------------

  /** The second mark of a pair ends a cut, or is a start on the end of the file, which cuts nothing. */
  predicate Closes(m: DeleteMap, i: nat, total: int)
    requires 2 * i + 1 < |m|
  {
    m[2 * i + 1].kind == CutEnd || (2 * i + 2 == |m| && m[2 * i + 1].frame == total)
  }

  predicate PairsClose(m: DeleteMap, k: nat, total: int)
    requires 2 * k <= |m|
  {
    forall i | 0 <= i < k :: Closes(m, i, total)
  }

  /** A pair of marks adds the frames between them, and those behind the second if it is a start. */
  lemma PairLength(m: DeleteMap, k: nat, total: nat)
    requires SortedKeys(m) && EvenMarksOpen(m) && 2 * k + 2 <= |m| && m[|m| - 1].frame <= total
    ensures var behind := KindLengthBy(m, 2 * k + 2, total) - KindLengthBy(m, 2 * k, total) - (End(m, k) - Start(m, k));
      && behind >= 0
      && (behind == 0 <==> Closes(m, k, total))
  {
    var i := 2 * k + 1;
    assert m[i - 1].kind == CutStart && (i + 1 < |m| ==> m[i + 1].kind == CutStart);
    assert KindLengthBy(m, i, total) == KindLengthBy(m, i - 1, total) + m[i].frame - m[i - 1].frame;
  }

  lemma {:induction false} PairsWithinKinds(m: DeleteMap, k: nat, total: nat)
    requires SortedKeys(m) && EvenMarksOpen(m) && 2 * k <= |m| && (|m| > 0 ==> m[|m| - 1].frame <= total)
    ensures CutLengthBy(m, k) <= KindLengthBy(m, 2 * k, total)
    ensures CutLengthBy(m, k) == KindLengthBy(m, 2 * k, total) <==> PairsClose(m, k, total)
  {
    if k > 0 {
      var i := k - 1;
      PairsWithinKinds(m, i, total);
      PairLength(m, i, total);
      assert 2 * i + 2 == 2 * k && CutLengthBy(m, k) == CutLengthBy(m, i) + (End(m, i) - Start(m, i));
      assert PairsClose(m, k, total) <==> PairsClose(m, i, total) && Closes(m, i, total);
    }
  }

  /** On any map that the loop finishes, its count is the number of frames that the marks cut
      exactly when the marks come in pairs of a start and an end. */
  lemma HelperCountExactIff(m: DeleteMap, total: nat)
    requires SortedKeys(m) && EvenMarksOpen(m) && total > 0 && (|m| > 0 ==> m[|m| - 1].frame <= total)
    ensures HelperCount(m) == CutByKindBelow(m, total) <==> |m| % 2 == 0 && PairsClose(m, |m| / 2, total)
  {
    var k := |m| / 2;
    KindLengthIsCutFrames(m, total);
    PairsWithinKinds(m, k, total);
    if |m| == 2 * k + 1 {
      assert m[2 * k].kind == CutStart;
      assert KindLength(m, total) == KindLengthBy(m, 2 * k, total) + total - m[2 * k].frame;
    }
  }

  /** The pairwise walks, which never look at the kinds, take the marks for what they say:
      starts and ends take turns, but for an end on frame 0, which cuts nothing before it. */
  predicate KindsAgree(m: DeleteMap) {
    && (forall i | 0 < i < |m| :: m[i].kind == if i % 2 == 0 then CutStart else CutEnd)
    && (|m| > 0 ==> m[0].kind == CutStart || m[0].frame == 0)
  }

  lemma {:induction false} CutByIndex(m: DeleteMap, k: nat, i: nat, p: int)
    requires Paired(m) && 2 * k <= |m| && Behind(m, i, p)
    ensures CutBy(m, k, p) <==> i % 2 == 0 && i < 2 * k
  {
    if k > 0 {
      CutByIndex(m, k - 1, i, p);
      var a := 2 * k - 2;
      if i < a {
        assert m[i + 1].frame <= m[a].frame;
      } else if i > a {
        assert m[a + 1].frame <= m[i].frame;
      }
    }
  }

  lemma {:induction false} CutBeforeMarks(m: DeleteMap, k: nat, p: int)
    requires Paired(m) && 2 * k <= |m| && (|m| > 0 ==> p < m[0].frame)
    ensures !CutBy(m, k, p)
  {
    if k > 0 {
      CutBeforeMarks(m, k - 1, p);
      assert m[0].frame <= m[2 * k - 2].frame;
    }
  }

  function MarkAtOrBelow(m: DeleteMap, p: int, k: nat): (i: nat)
    requires SortedKeys(m) && 0 < k <= |m| && m[0].frame <= p && (k < |m| ==> p < m[k].frame)
    ensures Behind(m, i, p)
  {
    if m[k - 1].frame <= p then k - 1 else MarkAtOrBelow(m, p, k - 1)
  }

  /** Where the kinds agree, cut by place is cut by kind. */
  lemma AgreeingIsCut(m: DeleteMap, p: nat)
    requires Paired(m) && KindsAgree(m)
    ensures IsCut(m, p) <==> CutByKind(m, p)
  {
    if |m| == 0 || p < m[0].frame {
      CutBeforeMarks(m, |m| / 2, p);
      KindBeforeMarks(m, p);
    } else {
      var i := MarkAtOrBelow(m, p, |m|);
      CutByIndex(m, |m| / 2, i, p);
      KindBehindMark(m, i, p);
    }
  }

  /** Where they do not, some frame that is taken for kept is cut. */
  lemma DisagreeingShowsCutFrame(m: DeleteMap) returns (p: nat)
    requires Paired(m) && !KindsAgree(m)
    ensures !IsCut(m, p) && CutByKind(m, p)
  {
    if m[0].kind == CutEnd && m[0].frame > 0 {
      p := 0;
      CutBeforeMarks(m, |m| / 2, p);
      KindBeforeMarks(m, p);
    } else {
      var j :| 0 < j < |m| && m[j].kind != if j % 2 == 0 then CutStart else CutEnd;
      var i := if j % 2 == 0 then j - 1 else j;
      p := m[i].frame;
      assert m[0].frame <= p;
      CutByIndex(m, |m| / 2, i, p);
      KindBehindMark(m, i, p);
    }
  }

  /** The walk keeps clear of every frame that the marks cut exactly when the kinds agree. */
  lemma WalkKeepsClearIff(m: DeleteMap)
    requires Paired(m)
    ensures (forall frame: nat :: Position(m, frame) >= 0 && !CutByKind(m, Position(m, frame))) <==> KindsAgree(m)
  {
    if KindsAgree(m) {
      forall frame: nat ensures Position(m, frame) >= 0 && !CutByKind(m, Position(m, frame)) {
        PositionIsKept(m, frame);
        AgreeingIsCut(m, Position(m, frame));
      }
    } else {
      var p := DisagreeingShowsCutFrame(m);
      PositionReachesKept(m, p, KeptBelow(m, p));
    }
  }

  /** The offset of the walk is the number of frames that the marks cut below it, too. */
  lemma {:induction false} AgreeingCounts(m: DeleteMap, n: nat)
    requires Paired(m) && KindsAgree(m)
    ensures CutBelow(m, n) == CutByKindBelow(m, n)
  {
    if n > 0 {
      AgreeingCounts(m, n - 1);
      AgreeingIsCut(m, n - 1);
    }
  }

  // ----- failing inputs ---------------------------------------------------------------------------

  /** The map of the cuts 0-100 and 100-200, whose shared frame keeps only the second's start. */
  const TOUCHING_CUTS := [Mark(0, CutStart), Mark(100, CutStart), Mark(200, CutEnd)]

  /** The loop takes the second start for an end and then stands at the last mark for ever. */
  lemma TouchingCutsNeverCounted(n: nat)
    ensures SortedKeys(TOUCHING_CUTS) && Turns(TOUCHING_CUTS, n).pos < |TOUCHING_CUTS|
  {
    TurnsStuck(TOUCHING_CUTS, 2, n);
  }

  /** The map of three cuts that touch. */
  const THREE_TOUCHING_CUTS := [Mark(0, CutStart), Mark(100, CutStart), Mark(200, CutStart), Mark(300, CutEnd)]

  /** All of the first 300 frames are cut. The helper counts 200. */
  lemma MiddleCutMissed()
    ensures var m := THREE_TOUCHING_CUTS;
      && Paired(m) && EvenMarksOpen(m)
      && HelperCount(m) == 200 && CutByKindBelow(m, 400) == 300
  {
    ThreeTouchingLengths(THREE_TOUCHING_CUTS);
    KindLengthIsCutFrames(THREE_TOUCHING_CUTS, 400);
  }

  lemma ThreeTouchingLengths(m: DeleteMap)
    requires |m| == 4 && m[0] == Mark(0, CutStart) && m[1] == Mark(100, CutStart)
    requires m[2] == Mark(200, CutStart) && m[3] == Mark(300, CutEnd)
    ensures HelperCount(m) == 200 && KindLength(m, 400) == 300
  {
    assert CutLengthBy(m, 1) == 100 && CutLengthBy(m, 2) == 200;
    assert KindLengthBy(m, 0, 400) == 0 && KindLengthBy(m, 1, 400) == 100;
    assert KindLengthBy(m, 2, 400) == 200 && KindLengthBy(m, 3, 400) == 300;
  }

  /** The walk takes the first frame of the middle cut for the first that is kept. */
  lemma MiddleCutShown()
    ensures var m := THREE_TOUCHING_CUTS;
      Position(m, 0) == 100 && CutByKind(m, 100)
  {
    var m := THREE_TOUCHING_CUTS;
    assert Shift(m, 1, 0) == 100;
    KindBehindMark(m, 1, 100);
  }

  /** A recording cut from frame 100 on: the count is below zero. */
  lemma OpenCutMiscounted()
    ensures var m := [Mark(100, CutStart)];
      && SortedKeys(m) && EvenMarksOpen(m)
      && HelperCount(m) == -100 && CutByKindBelow(m, 1000) == 900
  {
    var m := [Mark(100, CutStart)];
    KindLengthIsCutFrames(m, 1000);
    assert KindLengthBy(m, 0, 1000) == 0;
  }
}
