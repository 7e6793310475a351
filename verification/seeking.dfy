/** The seek state of the thumbnail editor as a value: the physical frame on display and
    the offset that separates it from its logical index, with every step the keys can take. */
module Seeking {
  import opened CutList

  /** What stays fixed while a file is open: its cuts, whether they are used, its frame count. */
  datatype Film = Film(cuts: DeleteMap, useCutlist: bool, total: nat) {

    ghost predicate Valid() {
      total > 0 && Paired(cuts) && (|cuts| > 0 ==> cuts[|cuts| - 1].frame <= total)
    }

    predicate Filtering() {
      useCutlist && |cuts| > 0
    }

    predicate CutAt(p: int) {
      Filtering() && IsCut(cuts, p)
    }

    /** How many frames of the file are left once the cuts are removed. */
    function KeptTotal(): nat {
      if Filtering() then KeptBelow(cuts, total) else total
    }

    /** The decoder shows the first picture not before the one asked for, or the last one. */
    function Land(frame: int): (r: int)
      ensures total > 0 ==> 0 <= r < total
    {
      if frame < 0 then 0 else if frame < total then frame else total - 1
    }

    /** The mark a forward cut-point seek goes to: the least one above f, or 0. */
    function NextMark(f: int, i: nat := 0): (pos: int)
      requires i <= |cuts|
      decreases |cuts| - i
    {
      if i == |cuts| then 0 else if cuts[i].frame > f then cuts[i].frame else NextMark(f, i + 1)
    }

    /** The mark a backward cut-point seek goes to: the greatest one below f, or 0. */
    function PrevMark(f: int, i: nat := 0, pos: int := 0): int
      requires i <= |cuts|
      decreases |cuts| - i
    {
      if i == |cuts| || cuts[i].frame >= f then pos else PrevMark(f, i + 1, cuts[i].frame)
    }
  }

  datatype SeekState = SeekState(frame: int, offset: int) {
    /** The position with the cuts removed, as far as the stored offset tells. */
    function Index(): int {
      frame - offset
    }
  }

  datatype Command =
    | JumpTo(target: int)
    | Ahead(amount: nat)
    | Back(amount: nat)
    | NextCut
    | PrevCut

  /** A seek that maps its target around the cuts. */
  function Checked(film: Film, s: SeekState, target: int): SeekState {
    if film.Filtering()
    then SeekState(film.Land(Position(film.cuts, target)), Offset(film.cuts, target))
    else SeekState(film.Land(target), s.offset)
  }

  /** A forward seek whose target number is one more than the current frame number only
      decodes the next picture. */
  predicate TakesShortcut(s: SeekState, amount: int) {
    s.frame + amount - s.offset == s.frame + 1
  }

  function Step(film: Film, s: SeekState, c: Command): SeekState {
    match c
    case JumpTo(target) => Checked(film, s, target)
    case Ahead(amount) =>
      if TakesShortcut(s, amount) then SeekState(film.Land(s.frame + 1), s.offset)
      else Checked(film, s, s.Index() + amount)
    case Back(amount) => Checked(film, s, s.Index() - amount)
    case NextCut => SeekState(film.Land(film.NextMark(s.frame)), 0)
    case PrevCut => SeekState(film.Land(film.PrevMark(s.frame)), 0)
  }

  /** A step whose seek the decoder refuses: the offset has already been replaced, the
      picture has not. The shortcut does not seek. */
  function Attempt(film: Film, s: SeekState, c: Command, accepted: bool): SeekState {
    if accepted || (c.Ahead? && TakesShortcut(s, c.amount)) then Step(film, s, c)
    else SeekState(s.frame, Step(film, s, c).offset)
  }

  /** A command, and whether the decoder accepts the seek it may ask for. */
  datatype Try = Try(command: Command, accepted: bool)

  function Run(film: Film, s: SeekState, tries: seq<Try>): SeekState {
    if |tries| == 0 then s
    else
      var last := tries[|tries| - 1];
      Attempt(film, Run(film, s, tries[..|tries| - 1]), last.command, last.accepted)
  }

  /** The frame on display survives the cuts and the offset counts the cut frames below it. */
  ghost predicate InSync(film: Film, s: SeekState) {
    && 0 <= s.frame < film.total
    && !film.CutAt(s.frame)
    && s.offset == if film.Filtering() then CutBelow(film.cuts, s.frame) else 0
  }

  // ----- when a step keeps the position in sync ---------------------------------------

  predicate TargetKeepsSync(film: Film, target: int) {
    if target < 0 then !film.CutAt(0)
    else target < film.KeptTotal() || !film.CutAt(film.total - 1)
  }

  /** Decidable before the step is taken. */
  predicate KeepsSync(film: Film, s: SeekState, c: Command) {
    match c
    case JumpTo(target) => TargetKeepsSync(film, target)
    case Ahead(amount) =>
      if TakesShortcut(s, amount) then s.frame + 1 == film.total || !film.CutAt(s.frame + 1)
      else TargetKeepsSync(film, s.Index() + amount)
    case Back(amount) => TargetKeepsSync(film, s.Index() - amount)
    case NextCut => !film.Filtering() || (film.NextMark(s.frame) == 0 && !film.CutAt(0))
    case PrevCut => !film.Filtering() || (film.PrevMark(s.frame) == 0 && !film.CutAt(0))
  }

  /** A kept last frame has every cut below it. */
  lemma LastFrameKept(film: Film)
    requires film.Valid() && film.Filtering() && !film.CutAt(film.total - 1)
    ensures CutBelow(film.cuts, film.total - 1) == CutLength(film.cuts)
  {
    var m := film.cuts;
    var k := |m| / 2;
    assert Start(m, k - 1) < End(m, k - 1);
    CutLengthIsCutFrames(m, film.total - 1);
  }

  /** Below the whole range a seek shows frame 0; above it, the last frame; inside it, the
      kept frame with that logical index. */
  lemma CheckedSeekIff(film: Film, s: SeekState, target: int)
    requires film.Valid()
    requires !film.Filtering() ==> s.offset == 0
    ensures InSync(film, Checked(film, s, target)) <==> TargetKeepsSync(film, target)
    ensures 0 <= target < film.KeptTotal() ==> Checked(film, s, target).Index() == target
  {
    var m := film.cuts;
    if film.Filtering() {
      if target < 0 {
        NegativeIsUnshifted(m, |m| / 2, target);
      } else {
        PositionIsKept(m, target);
        PositionWithin(m, target, film.total);
        if target >= film.KeptTotal() {
          CutLengthIsCutFrames(m, Position(m, target));
          if !film.CutAt(film.total - 1) {
            LastFrameKept(film);
          }
        }
      }
    }
  }

  /** A position in sync has an index that the film has. */
  lemma IndexInRange(film: Film, s: SeekState)
    requires film.Valid() && InSync(film, s)
    ensures 0 <= s.Index() < film.KeptTotal()
  {
    if film.Filtering() {
      KeptStep(film.cuts, s.frame, film.total);
    }
  }

  lemma NothingCutBelowFirst(film: Film, p: nat)
    requires film.Valid() && film.Filtering() && CutBelow(film.cuts, p) == 0
    ensures p <= film.cuts[0].frame
  {
    var m := film.cuts;
    if p > m[0].frame {
      FirstStartIsCut(m, |m| / 2);
      CountGrows(m, m[0].frame, p);
    }
  }

  lemma {:induction false} FirstStartIsCut(m: DeleteMap, k: nat)
    requires Paired(m) && 0 < k && 2 * k <= |m|
    ensures CutBy(m, k, m[0].frame)
  {
    if k > 1 {
      FirstStartIsCut(m, k - 1);
    } else {
      assert Start(m, 0) < End(m, 0);
    }
  }

  lemma {:induction false} CountGrows(m: DeleteMap, a: nat, b: nat)
    requires a < b && IsCut(m, a)
    ensures CutBelow(m, b) > 0
    decreases b
  {
    if a < b - 1 {
      CountGrows(m, a, b - 1);
    }
  }

  lemma {:induction false} StartIsCut(m: DeleteMap, k: nat, i: nat)
    requires Paired(m) && i < k && 2 * k <= |m|
    ensures CutBy(m, k, Start(m, i)) && CutBy(m, k, End(m, i) - 1)
  {
    assert Start(m, i) < End(m, i);
    if i < k - 1 {
      StartIsCut(m, k - 1, i);
    }
  }

  /** Standing on a mark (or on the last frame, for a mark past it) with offset 0 is never in sync. */
  lemma MarkIsOutOfSync(film: Film, i: nat)
    requires film.Valid() && film.Filtering() && i < |film.cuts|
    ensures !InSync(film, SeekState(film.Land(film.cuts[i].frame), 0))
  {
    var m := film.cuts;
    var k := i / 2;
    assert Start(m, k) < End(m, k) <= film.total by {
      assert 2 * k + 1 == |m| - 1 || m[2 * k + 1].frame < m[|m| - 1].frame;
    }
    StartIsCut(m, |m| / 2, k);
    if i % 2 == 1 && m[i].frame < film.total {
      CountGrows(m, Start(m, k), m[i].frame);
    }
  }

  lemma {:induction false} NextMarkIs(film: Film, f: int, i: nat)
    requires i <= |film.cuts|
    requires forall j | 0 <= j < i :: film.cuts[j].frame <= f
    ensures var pos := film.NextMark(f, i);
      || (pos == 0 && forall j | 0 <= j < |film.cuts| :: film.cuts[j].frame <= f)
      || (exists j | i <= j < |film.cuts| :: pos == film.cuts[j].frame && pos > f
           && forall h | 0 <= h < j :: film.cuts[h].frame <= f)
    decreases |film.cuts| - i
  {
    if i < |film.cuts| && film.cuts[i].frame <= f {
      NextMarkIs(film, f, i + 1);
    }
  }

  lemma {:induction false} PrevMarkIs(film: Film, f: int, i: nat, pos: int)
    requires i <= |film.cuts| && SortedKeys(film.cuts)
    requires forall j | 0 <= j < i :: film.cuts[j].frame < f
    requires pos == if i == 0 then 0 else film.cuts[i - 1].frame
    ensures var r := film.PrevMark(f, i, pos);
      || (r == 0 && forall j | 0 <= j < |film.cuts| :: film.cuts[j].frame >= f)
      || (exists j | 0 <= j < |film.cuts| :: r == film.cuts[j].frame && r < f
           && forall h | j < h < |film.cuts| :: film.cuts[h].frame >= f)
    decreases |film.cuts| - i
  {
    if i < |film.cuts| && film.cuts[i].frame < f {
      PrevMarkIs(film, f, i + 1, film.cuts[i].frame);
    }
  }

  lemma CutPointSeekIff(film: Film, s: SeekState, c: Command)
    requires film.Valid() && (c == NextCut || c == PrevCut)
    ensures InSync(film, Step(film, s, c)) <==> KeepsSync(film, s, c)
  {
    var m := film.cuts;
    var pos := if c == NextCut then film.NextMark(s.frame) else film.PrevMark(s.frame);
    if film.Filtering() {
      NextMarkIs(film, s.frame, 0);
      PrevMarkIs(film, s.frame, 0, 0);
      if pos != 0 {
        var i :| 0 <= i < |m| && m[i].frame == pos;
        MarkIsOutOfSync(film, i);
      }
    }
  }

  /** Decoding one more picture keeps the offset, which stays right unless a cut begins there. */
  lemma ShortcutIff(film: Film, s: SeekState)
    requires film.Valid() && InSync(film, s)
    ensures InSync(film, SeekState(film.Land(s.frame + 1), s.offset)) <==>
      s.frame + 1 == film.total || !film.CutAt(s.frame + 1)
  {
    if film.Filtering() {
      assert CutBelow(film.cuts, s.frame + 1) == CutBelow(film.cuts, s.frame);
    }
  }

  /** The exact condition, for every kind of step, under which a position that is in sync stays so. */
  lemma StepKeepsSyncIff(film: Film, s: SeekState, c: Command)
    requires film.Valid() && InSync(film, s)
    ensures InSync(film, Step(film, s, c)) <==> KeepsSync(film, s, c)
  {
    match c
    case JumpTo(target) => CheckedSeekIff(film, s, target);
    case Ahead(amount) =>
      if TakesShortcut(s, amount) {
        ShortcutIff(film, s);
      } else {
        CheckedSeekIff(film, s, s.Index() + amount);
      }
    case Back(amount) => CheckedSeekIff(film, s, s.Index() - amount);
    case NextCut => CutPointSeekIff(film, s, c);
    case PrevCut => CutPointSeekIff(film, s, c);
  }

  /** The condition for any step, with the decoder's answer: a refused seek keeps the picture,
      so the offset it leaves behind must be the one already in force. */
  predicate TryKeepsSync(film: Film, s: SeekState, c: Command, accepted: bool) {
    if accepted || (c.Ahead? && TakesShortcut(s, c.amount)) then KeepsSync(film, s, c)
    else Step(film, s, c).offset == s.offset
  }

  lemma TryKeepsSyncIff(film: Film, s: SeekState, c: Command, accepted: bool)
    requires film.Valid() && InSync(film, s)
    ensures InSync(film, Attempt(film, s, c, accepted)) <==> TryKeepsSync(film, s, c, accepted)
  {
    StepKeepsSyncIff(film, s, c);
  }

  /** The first kept frame, on display when a film is opened, is in sync unless there is none. */
  lemma OpenedInSyncIff(film: Film)
    requires film.Valid()
    ensures InSync(film, Checked(film, SeekState(0, 0), 0)) <==> film.KeptTotal() > 0
  {
    CheckedSeekIff(film, SeekState(0, 0), 0);
    if film.Filtering() {
      KeptStep(film.cuts, film.total - 1, film.total);
    }
  }

  // ----- whole runs ------------------------------------------------------------------------

  /** The logical index a run asks for, by arithmetic on its commands alone. */
  function AskedIndex(start: int, tries: seq<Try>): int {
    if |tries| == 0 then start
    else
      var i := AskedIndex(start, tries[..|tries| - 1]);
      match tries[|tries| - 1].command
      case JumpTo(target) => target
      case Ahead(amount) => i + amount
      case Back(amount) => i - amount
      case _ => i
  }

  /** Every command is an accepted thumb jump or timed seek, asks for an index the film has,
      and does not ask for exactly one frame more than the offset. */
  predicate CheckedRun(film: Film, s: SeekState, tries: seq<Try>) {
    |tries| > 0 ==>
      && CheckedRun(film, s, tries[..|tries| - 1])
      && 0 <= AskedIndex(s.Index(), tries) < film.KeptTotal()
      && tries[|tries| - 1].accepted
      && match tries[|tries| - 1].command {
           case JumpTo(_) => true
           case Ahead(amount) => amount != Run(film, s, tries[..|tries| - 1]).offset + 1
           case Back(_) => true
           case _ => false
         }
  }

  /** Along a checked run the frame shown is always a kept one and its logical index is
      exactly what the commands add up to. */
  lemma {:induction false} CheckedRunStaysInSync(film: Film, s: SeekState, tries: seq<Try>)
    requires film.Valid() && InSync(film, s) && CheckedRun(film, s, tries)
    ensures InSync(film, Run(film, s, tries))
    ensures Run(film, s, tries).Index() == AskedIndex(s.Index(), tries)
  {
    if |tries| > 0 {
      var before := tries[..|tries| - 1];
      CheckedRunStaysInSync(film, s, before);
      var t := Run(film, s, before);
      CheckedSeekIff(film, t, AskedIndex(s.Index(), tries));
      StepKeepsSyncIff(film, t, tries[|tries| - 1].command);
    }
  }

  /** Every state a run passes through is in sync exactly when each of its steps, accepted
      or refused, meets the condition that can be read off before taking it. */
  ghost predicate AlwaysInSync(film: Film, s: SeekState, tries: seq<Try>) {
    forall n: nat | n <= |tries| :: InSync(film, Run(film, s, tries[..n]))
  }

  lemma OneMoreTryIff(film: Film, s: SeekState, tries: seq<Try>, n: nat)
    requires film.Valid() && n < |tries| && InSync(film, Run(film, s, tries[..n]))
    ensures InSync(film, Run(film, s, tries[..n + 1])) <==>
      TryKeepsSync(film, Run(film, s, tries[..n]), tries[n].command, tries[n].accepted)
  {
    assert tries[..n + 1][..n] == tries[..n];
    TryKeepsSyncIff(film, Run(film, s, tries[..n]), tries[n].command, tries[n].accepted);
  }

  lemma {:induction false} InSyncSoFar(film: Film, s: SeekState, tries: seq<Try>, n: nat)
    requires film.Valid() && InSync(film, s) && n <= |tries|
    requires forall k: nat | k < n ::
      TryKeepsSync(film, Run(film, s, tries[..k]), tries[k].command, tries[k].accepted)
    ensures InSync(film, Run(film, s, tries[..n]))
  {
    if n > 0 {
      InSyncSoFar(film, s, tries, n - 1);
      OneMoreTryIff(film, s, tries, n - 1);
    }
  }

  lemma RunInSyncIff(film: Film, s: SeekState, tries: seq<Try>)
    requires film.Valid() && InSync(film, s)
    ensures AlwaysInSync(film, s, tries) <==>
      forall n: nat | n < |tries| ::
        TryKeepsSync(film, Run(film, s, tries[..n]), tries[n].command, tries[n].accepted)
  {
    if AlwaysInSync(film, s, tries) {
      forall n: nat | n < |tries|
        ensures TryKeepsSync(film, Run(film, s, tries[..n]), tries[n].command, tries[n].accepted)
      {
        OneMoreTryIff(film, s, tries, n);
      }
    } else if forall n: nat | n < |tries| ::
      TryKeepsSync(film, Run(film, s, tries[..n]), tries[n].command, tries[n].accepted)
    {
      forall n: nat | n <= |tries|
        ensures InSync(film, Run(film, s, tries[..n]))
      {
        InSyncSoFar(film, s, tries, n);
      }
    }
  }

  /** A film whose cut list is unused never acquires an offset, whatever is pressed or refused. */
  lemma {:induction false} UnusedCutlistHasNoOffset(film: Film, s: SeekState, tries: seq<Try>)
    requires !film.Filtering() && s.offset == 0
    ensures Run(film, s, tries).offset == 0
  {
    if |tries| > 0 {
      UnusedCutlistHasNoOffset(film, s, tries[..|tries| - 1]);
    }
  }

  /** Whatever is pressed or refused, the frame shown is one the film has. */
  lemma {:induction false} RunShowsAFrame(film: Film, s: SeekState, tries: seq<Try>)
    requires film.total > 0 && 0 <= s.frame < film.total
    ensures 0 <= Run(film, s, tries).frame < film.total
  {
    if |tries| > 0 {
      RunShowsAFrame(film, s, tries[..|tries| - 1]);
    }
  }

  /** The shortcut moves one physical frame: the logical index moves by the amount asked
      for only when that amount is one, although larger amounts can take it too. */
  lemma ShortcutMovesByOne(film: Film, s: SeekState, amount: nat)
    requires film.Valid() && InSync(film, s) && s.frame + 1 < film.total
    requires TakesShortcut(s, amount)
    ensures Step(film, s, Ahead(amount)).Index() == s.Index() + amount <==> amount == 1
    ensures amount == 1 <==> !film.Filtering() || s.frame <= film.cuts[0].frame
  {
    if film.Filtering() {
      if s.offset == 0 {
        NothingCutBelowFirst(film, s.frame);
      } else if s.frame <= film.cuts[0].frame {
        NoneCutUpTo(film.cuts, |film.cuts| / 2, s.frame);
      }
    }
  }

  lemma {:induction false} NoneCutUpTo(m: DeleteMap, k: nat, n: nat)
    requires Paired(m) && 2 * k <= |m| && (|m| > 0 ==> n <= m[0].frame)
    ensures CutCountBy(m, k, n) == 0
  {
    if k == 0 {
      CountNone(m, n);
    } else {
      NoneCutUpTo(m, k - 1, n);
      CountOneMore(m, k - 1, n);
      assert m[0].frame <= Start(m, k - 1);
    }
  }

  // ----- thumbnails ----------------------------------------------------------------------------

  /** The frame number stored with a thumbnail, index of the frame on display, leads every
      later seek back to that frame exactly when the position was in sync, or the number
      lies off an end of the film whose border frame is the one on display. */
  lemma ThumbRoundTripIff(film: Film, s: SeekState, later: SeekState)
    requires film.Valid() && 0 <= s.frame < film.total
    requires !film.Filtering() ==> s.offset == 0
    ensures Checked(film, later, s.Index()).frame == s.frame <==>
      || InSync(film, s)
      || (s.frame == film.total - 1 && s.Index() >= film.KeptTotal())
      || (s.frame == 0 && s.Index() < 0)
  {
    var m := film.cuts;
    if film.Filtering() {
      if s.Index() < 0 {
        NegativeIsUnshifted(m, |m| / 2, s.Index());
      } else {
        PositionIsKept(m, s.Index());
        PositionWithin(m, s.Index(), film.total);
        if !IsCut(m, s.frame) {
          PositionReachesKept(m, s.frame, s.Index());
        }
      }
    }
  }

  // ----- cut-point seeking --------------------------------------------------------------------------

  lemma AtMark(film: Film, f: int, i: nat)
    requires film.Valid() && i < |film.cuts|
    requires (i > 0 ==> film.cuts[i - 1].frame <= f) && f < film.cuts[i].frame
    ensures film.NextMark(f) == film.cuts[i].frame
  {
    NextMarkIs(film, f, 0);
    assert forall j | 0 <= j < i :: film.cuts[j].frame <= f;
  }

  lemma BeforeMark(film: Film, f: int, i: nat)
    requires film.Valid() && i < |film.cuts|
    requires film.cuts[i].frame < f && (i + 1 < |film.cuts| ==> f <= film.cuts[i + 1].frame)
    ensures film.PrevMark(f) == film.cuts[i].frame
  {
    PrevMarkIs(film, f, 0, 0);
  }

  /** Forward then backward from a mark that has a successor returns to it, except from a
      mark on the very last frame, which has no later frame to leave for. */
  lemma ForwardThenBackIff(film: Film, s: SeekState, i: nat)
    requires film.Valid() && i + 1 < |film.cuts| && s.frame == film.cuts[i].frame
    ensures Run(film, s, [Try(NextCut, true), Try(PrevCut, true)]).frame == s.frame <==>
      s.frame < film.total - 1 || s.frame == 0
  {
    var m := film.cuts;
    assert m[i + 1].frame <= film.total by {
      assert i + 1 == |m| - 1 || m[i + 1].frame < m[|m| - 1].frame;
    }
    AtMark(film, s.frame, i + 1);
    var t := Step(film, s, NextCut);
    var there := Try(NextCut, true);
    assert t == Run(film, s, [there]) by { assert [there][..0] == []; }
    assert [there, Try(PrevCut, true)][..1] == [there];
    if s.frame < film.total - 1 {
      BeforeMark(film, t.frame, i);
    } else {
      PrevMarkIs(film, t.frame, 0, 0);
    }
  }

  /** From in front of the first mark, n forward cut-point seeks visit the first n marks in turn. */
  lemma {:induction false} ForwardVisitsMarks(film: Film, s: SeekState, n: nat)
    requires film.Valid() && 0 < n <= |film.cuts| && film.cuts[n - 1].frame < film.total
    requires s.frame < film.cuts[0].frame
    ensures Run(film, s, seq(n, _ => Try(NextCut, true))) == SeekState(film.cuts[n - 1].frame, 0)
  {
    var jumps := seq(n, _ => Try(NextCut, true));
    assert jumps[..n - 1] == seq(n - 1, _ => Try(NextCut, true));
    if n > 1 {
      ForwardVisitsMarks(film, s, n - 1);
    } else {
      assert Run(film, s, jumps[..0]) == s;
    }
    AtMark(film, Run(film, s, jumps[..n - 1]).frame, n - 1);
  }

  /** Past the last mark a forward cut-point seek starts again from the beginning of the file. */
  lemma ForwardWrapsToStart(film: Film, s: SeekState)
    requires film.Valid() && (|film.cuts| > 0 ==> film.cuts[|film.cuts| - 1].frame <= s.frame)
    ensures Step(film, s, NextCut) == SeekState(0, 0)
  {
    NextMarkIs(film, s.frame, 0);
  }

  // ----- failing inputs -------------------------------------------------------------------------------

  /** Half a minute at ten frames a second, with the second ten seconds cut. */
  const MIDDLE_CUT := Film([Mark(100, CutStart), Mark(200, CutEnd)], true, 300)

  /** The same with the first ten seconds cut, and with the last. */
  const HEAD_CUT := Film([Mark(0, CutStart), Mark(100, CutEnd)], true, 300)
  const TAIL_CUT := Film([Mark(200, CutStart), Mark(300, CutEnd)], true, 300)

  lemma OneCut(start: nat, end: nat, p: nat)
    requires start < end
    ensures var m := [Mark(start, CutStart), Mark(end, CutEnd)];
      && Paired(m)
      && (IsCut(m, p) <==> start <= p < end)
      && CutBelow(m, p) == if p <= start then 0 else if p <= end then p - start else end - start
  {
    var m := [Mark(start, CutStart), Mark(end, CutEnd)];
    CountNone(m, p);
    CountOneMore(m, 0, p);
    assert !CutBy(m, 0, p);
  }

  /** From a kept frame, the forward cut-point seek goes to the first frame of the cut. */
  lemma NextCutShowsCutFrame()
    ensures var s := SeekState(50, 0);
      && MIDDLE_CUT.Valid() && InSync(MIDDLE_CUT, s)
      && Step(MIDDLE_CUT, s, NextCut) == SeekState(100, 0) && MIDDLE_CUT.CutAt(100)
  {
    OneCut(100, 200, 50);
    OneCut(100, 200, 100);
    AtMark(MIDDLE_CUT, 50, 0);
  }

  /** One frame ahead of the last frame before a cut is the first frame of the cut. */
  lemma ShortcutShowsCutFrame()
    ensures var s := SeekState(99, 0);
      && InSync(MIDDLE_CUT, s) && TakesShortcut(s, 1)
      && Step(MIDDLE_CUT, s, Ahead(1)) == SeekState(100, 0) && MIDDLE_CUT.CutAt(100)
  {
    OneCut(100, 200, 99);
    OneCut(100, 200, 100);
  }

  /** Behind a cut of a hundred frames, going ahead by a hundred and one moves a single frame. */
  lemma ShortcutLosesAmount()
    ensures var s := SeekState(210, 100);
      && InSync(MIDDLE_CUT, s) && TakesShortcut(s, 101)
      && Step(MIDDLE_CUT, s, Ahead(101)).Index() == s.Index() + 1
  {
    OneCut(100, 200, 210);
  }

  /** Going back past the beginning shows frame 0, even when it is cut. */
  lemma BackShowsCutFrame()
    ensures var s := SeekState(105, 100);
      && HEAD_CUT.Valid() && InSync(HEAD_CUT, s)
      && Step(HEAD_CUT, s, Back(10)) == SeekState(0, 0) && HEAD_CUT.CutAt(0)
  {
    OneCut(0, 100, 105);
    OneCut(0, 100, 0);
    NegativeIsUnshifted(HEAD_CUT.cuts, 1, -5);
  }

  /** Going ahead past the last kept frame shows the last frame, even when it is cut. */
  lemma AheadShowsCutFrame()
    ensures var s := SeekState(195, 0);
      && TAIL_CUT.Valid() && InSync(TAIL_CUT, s)
      && Step(TAIL_CUT, s, Ahead(10)) == SeekState(299, 100) && TAIL_CUT.CutAt(299)
  {
    OneCut(200, 300, 195);
    OneCut(200, 300, 299);
    assert Shift(TAIL_CUT.cuts, 0, 205) == 0;
    assert Offset(TAIL_CUT.cuts, 205) == 100;
  }

  /** A refused seek over a cut leaves the picture in front of it with the offset behind it. */
  lemma RefusedSeekLosesSync()
    ensures var s := SeekState(50, 0);
      && InSync(MIDDLE_CUT, s)
      && Attempt(MIDDLE_CUT, s, Ahead(100), false) == SeekState(50, 100)
      && !InSync(MIDDLE_CUT, SeekState(50, 100))
  {
    OneCut(100, 200, 50);
    assert Shift(MIDDLE_CUT.cuts, 0, 150) == 0;
    assert Offset(MIDDLE_CUT.cuts, 150) == 100;
  }
}
