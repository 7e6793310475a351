/** The thumbnail editor: seeking around the cuts, storing thumbnails into a working copy,
    laying out chapters, and saving or abandoning the copy. */
module ThumbFinding {
  import opened ArchiveItems
  import opened CutList
  import opened Seeking
  import opened TimeText

  /** Seconds to move by; -1 stands for one frame and -2 for the next cut point. */
  const SEEK_AMOUNTS := [-1, 1, 5, 10, 30, 60, 300, 600, -2]

  const TITLE_CAPTION := "Title"

  /** What opening the file tells about its video stream, in stream time units. */
  datatype Stream = Stream(startPTS: int, frameTime: int, total: nat, fps: real) {
    predicate Valid() {
      frameTime > 0 && total > 0 && fps > 0.0
    }
  }

  datatype Key = KeyThumb(n: nat) | KeyUp | KeyDown | KeyLeft | KeyRight | KeySelect

  /** Everything the keys act on, as a value. */
  datatype Editor = Editor(seek: SeekState, amount: nat, current: nat, thumbs: seq<ThumbValue>)

  function ForwardCommand(amount: nat, fps: real): Command
    requires amount < |SEEK_AMOUNTS| && fps > 0.0
  {
    var a := SEEK_AMOUNTS[amount];
    if a == -1 then Ahead(1) else if a == -2 then NextCut
    else
      CeilPositive(fps);
      Ahead(a * Ceil(fps))
  }

  function BackwardCommand(amount: nat, fps: real): Command
    requires amount < |SEEK_AMOUNTS| && fps > 0.0
  {
    match ForwardCommand(amount, fps)
    case Ahead(n) => Back(n)
    case _ => PrevCut
  }

  lemma CeilPositive(fps: real)
    requires fps > 0.0
    ensures Ceil(fps) > 0 && fps <= Ceil(fps) as real < fps + 1.0
  {
  }

  /** The thumbnail that storing the frame on display makes of an old one. */
  function Stored(was: ThumbValue, position: nat, s: SeekState, fps: real): ThumbValue
    requires fps > 0.0
  {
    ThumbValue(if position != 0 then ToClock(s.Index(), fps).Caption() else was.caption, was.filename, s.Index())
  }

  function Press(film: Film, fps: real, grid: nat, e: Editor, key: Key, accepted: bool): Editor
    requires fps > 0.0 && Usable(e, grid)
  {
    match key
    case KeyThumb(n) =>
      var i := if n < grid then n else e.current;
      e.(current := i, seek := Attempt(film, e.seek, JumpTo(e.thumbs[i].frame), accepted))
    case KeyUp => e.(amount := if e.amount + 1 < |SEEK_AMOUNTS| then e.amount + 1 else 0)
    case KeyDown => e.(amount := if e.amount > 0 then e.amount - 1 else |SEEK_AMOUNTS| - 1)
    case KeyLeft => e.(seek := Attempt(film, e.seek, BackwardCommand(e.amount, fps), accepted))
    case KeyRight => e.(seek := Attempt(film, e.seek, ForwardCommand(e.amount, fps), accepted))
    case KeySelect =>
      e.(thumbs := e.thumbs[e.current := Stored(e.thumbs[e.current], e.current, e.seek, fps)])
  }

  predicate Usable(e: Editor, grid: nat) {
    e.amount < |SEEK_AMOUNTS| && e.current < grid <= |e.thumbs|
  }

  /** A whole run of keys, each with the decoder's answer to the seek it may ask for. */
  function PressAll(film: Film, fps: real, grid: nat, e: Editor, keys: seq<(Key, bool)>): (r: Editor)
    requires fps > 0.0 && Usable(e, grid)
    ensures Usable(r, grid) && |r.thumbs| == |e.thumbs|
  {
    if |keys| == 0 then e
    else
      var last := keys[|keys| - 1];
      Press(film, fps, grid, PressAll(film, fps, grid, e, keys[..|keys| - 1]), last.0, last.1)
  }

  /** Storing the frame on display and later picking that thumbnail, from wherever the
      editor has got to, shows the same frame again exactly when the position was in sync
      at the time, or showed the border frame its index runs off at. */
  lemma StoredThumbLeadsBackIff(film: Film, fps: real, grid: nat, e: Editor, later: Editor)
    requires film.Valid() && fps > 0.0 && Usable(e, grid) && Usable(later, grid)
    requires 0 <= e.seek.frame < film.total && (!film.Filtering() ==> e.seek.offset == 0)
    requires later.thumbs[e.current] == Press(film, fps, grid, e, KeySelect, true).thumbs[e.current]
    ensures Press(film, fps, grid, later, KeyThumb(e.current), true).seek.frame == e.seek.frame <==>
      || InSync(film, e.seek)
      || (e.seek.frame == film.total - 1 && e.seek.Index() >= film.KeptTotal())
      || (e.seek.frame == 0 && e.seek.Index() < 0)
  {
    StoredFrame(film, fps, grid, e, true);
    PickedFrame(film, fps, grid, later, e.current);
    ThumbRoundTripIff(film, e.seek, later.seek);
  }

  lemma StoredFrame(film: Film, fps: real, grid: nat, e: Editor, accepted: bool)
    requires fps > 0.0 && Usable(e, grid)
    ensures Press(film, fps, grid, e, KeySelect, accepted).thumbs[e.current].frame == e.seek.Index()
  {
  }

  lemma PickedFrame(film: Film, fps: real, grid: nat, e: Editor, n: nat)
    requires fps > 0.0 && Usable(e, grid) && n < grid
    ensures Press(film, fps, grid, e, KeyThumb(n), true).seek == Checked(film, e.seek, e.thumbs[n].frame)
  {
  }

  // ----- what the keys do -----------------------------------------------------------------------

  lemma WholeRate(fps: real, c: int)
    requires fps > 0.0 && fps <= c as real < fps + 1.0
    ensures Ceil(fps) == c && c > 0
  {
  }

  /** An amount in seconds asks for that many seconds' frames at the rate rounded up, and from
      a position in sync moves its index by exactly so many, unless that runs off an end, or
      is one more than the offset. */
  lemma SecondsKeysMove(film: Film, fps: real, grid: nat, e: Editor, seconds: int, c: int, n: int)
    requires film.Valid() && fps > 0.0 && Usable(e, grid) && SEEK_AMOUNTS[e.amount] == seconds > 0
    requires fps <= c as real < fps + 1.0 && n == seconds * c
    ensures var right := Press(film, fps, grid, e, KeyRight, true).seek;
      right == if n == e.seek.offset + 1 then SeekState(film.Land(e.seek.frame + 1), e.seek.offset)
               else Checked(film, e.seek, e.seek.Index() + n)
    ensures Press(film, fps, grid, e, KeyLeft, true).seek == Checked(film, e.seek, e.seek.Index() - n)
    ensures InSync(film, e.seek) && n != e.seek.offset + 1 && e.seek.Index() + n < film.KeptTotal() ==>
      var right := Press(film, fps, grid, e, KeyRight, true).seek;
      InSync(film, right) && right.Index() == e.seek.Index() + n
    ensures InSync(film, e.seek) && e.seek.Index() - n >= 0 ==>
      var left := Press(film, fps, grid, e, KeyLeft, true).seek;
      InSync(film, left) && left.Index() == e.seek.Index() - n
  {
    WholeRate(fps, c);
    SplitFactor(c, seconds, 0);
    if InSync(film, e.seek) {
      IndexInRange(film, e.seek);
      CheckedSeekIff(film, e.seek, e.seek.Index() + n);
      CheckedSeekIff(film, e.seek, e.seek.Index() - n);
    }
  }

  lemma FrameAhead(film: Film, fps: real, grid: nat, e: Editor)
    requires film.Valid() && fps > 0.0 && Usable(e, grid) && SEEK_AMOUNTS[e.amount] == -1
    requires InSync(film, e.seek) && e.seek.Index() + 1 < film.KeptTotal()
    ensures var right := Press(film, fps, grid, e, KeyRight, true).seek;
      && right.Index() == e.seek.Index() + 1
      && (InSync(film, right) <==> e.seek.offset != 0 || !film.CutAt(e.seek.frame + 1))
  {
    IndexInRange(film, e.seek);
    assert Press(film, fps, grid, e, KeyRight, true).seek == Step(film, e.seek, Ahead(1));
    if e.seek.offset == 0 {
      ShortcutIff(film, e.seek);
    } else {
      CheckedSeekIff(film, e.seek, e.seek.Index() + 1);
    }
  }

  /** An amount of one frame moves the index by one; going forward, the new position is in
      sync unless nothing is cut so far and a cut begins there. */
  lemma FrameKeysMove(film: Film, fps: real, grid: nat, e: Editor)
    requires film.Valid() && fps > 0.0 && Usable(e, grid) && SEEK_AMOUNTS[e.amount] == -1
    requires InSync(film, e.seek)
    ensures e.seek.Index() + 1 < film.KeptTotal() ==>
      var right := Press(film, fps, grid, e, KeyRight, true).seek;
      && right.Index() == e.seek.Index() + 1
      && (InSync(film, right) <==> e.seek.offset != 0 || !film.CutAt(e.seek.frame + 1))
    ensures e.seek.Index() >= 1 ==>
      var left := Press(film, fps, grid, e, KeyLeft, true).seek;
      InSync(film, left) && left.Index() == e.seek.Index() - 1
  {
    if e.seek.Index() + 1 < film.KeptTotal() {
      FrameAhead(film, fps, grid, e);
    }
    if e.seek.Index() >= 1 {
      IndexInRange(film, e.seek);
      CheckedSeekIff(film, e.seek, e.seek.Index() - 1);
    }
  }

  /** An amount of one cut point shows the mark next to the frame on display, on the side the
      key names, or the beginning of the file when there is none. */
  lemma CutPointKeysShowMarks(film: Film, fps: real, grid: nat, e: Editor, i: nat)
    requires film.Valid() && fps > 0.0 && Usable(e, grid) && SEEK_AMOUNTS[e.amount] == -2
    requires i < |film.cuts|
    ensures (i > 0 ==> film.cuts[i - 1].frame <= e.seek.frame) && e.seek.frame < film.cuts[i].frame ==>
      Press(film, fps, grid, e, KeyRight, true).seek == SeekState(film.Land(film.cuts[i].frame), 0)
    ensures film.cuts[i].frame < e.seek.frame && (i + 1 < |film.cuts| ==> e.seek.frame <= film.cuts[i + 1].frame) ==>
      Press(film, fps, grid, e, KeyLeft, true).seek == SeekState(film.Land(film.cuts[i].frame), 0)
    ensures film.cuts[|film.cuts| - 1].frame <= e.seek.frame ==>
      Press(film, fps, grid, e, KeyRight, true).seek == SeekState(0, 0)
    ensures e.seek.frame <= film.cuts[0].frame ==>
      Press(film, fps, grid, e, KeyLeft, true).seek == SeekState(0, 0)
  {
    NextMarkIs(film, e.seek.frame, 0);
    PrevMarkIs(film, e.seek.frame, 0, 0);
  }

  /** A refused seek leaves the picture and takes the offset of the accepted one; only the next
      picture can still be decoded. */
  lemma RefusedKey(film: Film, fps: real, grid: nat, e: Editor, key: Key)
    requires fps > 0.0 && Usable(e, grid) && (key.KeyLeft? || key.KeyRight? || key.KeyThumb?)
    ensures var accepted := Press(film, fps, grid, e, key, true).seek;
      var refused := Press(film, fps, grid, e, key, false).seek;
      && refused.offset == accepted.offset
      && (refused.frame == e.seek.frame
          || (key.KeyRight? && refused == accepted == SeekState(film.Land(e.seek.frame + 1), e.seek.offset)))
  {
  }

  /** Where some steps round the circle of the nine amounts lead from one of them. */
  function Around(amount: nat, up: bool, n: nat): (r: nat)
    ensures r < |SEEK_AMOUNTS|
  {
    (if up then amount + n else amount - n) % 9
  }

  lemma OneStepAround(amount: nat, up: bool, n: nat)
    requires amount < |SEEK_AMOUNTS|
    ensures Around(amount, up, 0) == amount
    ensures Around(Around(amount, up, n), up, 1) == Around(amount, up, n + 1)
  {
    var x := if up then amount + n else amount - n;
    WholeRounds(x % 9 + 1, x / 9);
    WholeRounds(x % 9 - 1, x / 9);
  }

  lemma WholeRounds(x: int, rounds: int)
    ensures (x + 9 * rounds) % 9 == x % 9
  {
  }

  lemma AmountKey(film: Film, fps: real, grid: nat, e: Editor, up: bool, accepted: bool)
    requires fps > 0.0 && Usable(e, grid)
    ensures Press(film, fps, grid, e, if up then KeyUp else KeyDown, accepted)
      == e.(amount := Around(e.amount, up, 1))
  {
  }

  /** The amounts come round in a circle, and are all that these keys change. */
  lemma {:induction false} AmountKeysCircle(film: Film, fps: real, grid: nat, e: Editor, up: bool,
                                            keys: seq<(Key, bool)>)
    requires fps > 0.0 && Usable(e, grid)
    requires forall k | 0 <= k < |keys| :: keys[k].0 == if up then KeyUp else KeyDown
    ensures PressAll(film, fps, grid, e, keys) == e.(amount := Around(e.amount, up, |keys|))
  {
    if |keys| > 0 {
      var front := keys[..|keys| - 1];
      AmountKeysCircle(film, fps, grid, e, up, front);
      AmountKey(film, fps, grid, PressAll(film, fps, grid, e, front), up, keys[|keys| - 1].1);
      OneStepAround(e.amount, up, |front|);
    } else {
      OneStepAround(e.amount, up, 0);
    }
  }

  /** A number key and then the select key replace that thumbnail alone: it gets the index of
      the frame on display and, except for the title, a caption that reads back as its second. */
  lemma PickThenStore(film: Film, fps: real, grid: nat, e: Editor, n: nat, a: bool, b: bool)
    requires fps > 0.0 && Usable(e, grid) && n < grid
    ensures var r := PressAll(film, fps, grid, e, [(KeyThumb(n), a), (KeySelect, b)]);
      && r.current == n && r.amount == e.amount && r.thumbs == e.thumbs[n := r.thumbs[n]]
      && r.thumbs[n].frame == r.seek.frame - r.seek.offset
      && r.thumbs[n].filename == e.thumbs[n].filename
      && (n == 0 ==> r.thumbs[n].caption == e.thumbs[n].caption)
      && (n > 0 && r.thumbs[n].frame >= 0 ==>
            && |r.thumbs[n].caption| >= 8
            && CaptionSeconds(r.thumbs[n].caption) == (r.thumbs[n].frame as real / fps).Floor)
  {
    var first, keys := (KeyThumb(n), a), [(KeyThumb(n), a), (KeySelect, b)];
    assert keys[..1] == [first] && [first][..0] == [];
    var picked := Press(film, fps, grid, e, KeyThumb(n), a);
    assert PressAll(film, fps, grid, e, [first]) == picked;
    if picked.seek.Index() >= 0 {
      FrameCaptionSeconds(picked.seek.Index(), fps);
    }
  }

  // ----- runs of keys ------------------------------------------------------------------------

  /** The seek a key asks for, if it asks for one. */
  function KeyCommand(fps: real, grid: nat, e: Editor, key: Key): Option<Command>
    requires fps > 0.0 && Usable(e, grid)
  {
    match key
    case KeyThumb(n) => Some(JumpTo(e.thumbs[if n < grid then n else e.current].frame))
    case KeyLeft => Some(BackwardCommand(e.amount, fps))
    case KeyRight => Some(ForwardCommand(e.amount, fps))
    case _ => None
  }

  /** The seeks a run of keys asks for, with the decoder's answers. */
  function TriesOf(film: Film, fps: real, grid: nat, e: Editor, keys: seq<(Key, bool)>): seq<Try>
    requires fps > 0.0 && Usable(e, grid)
  {
    if |keys| == 0 then []
    else
      var front, last := keys[..|keys| - 1], keys[|keys| - 1];
      var before := TriesOf(film, fps, grid, e, front);
      match KeyCommand(fps, grid, PressAll(film, fps, grid, e, front), last.0)
      case Some(c) => before + [Try(c, last.1)]
      case None => before
  }

  lemma {:induction false} KeysSeek(film: Film, fps: real, grid: nat, e: Editor, keys: seq<(Key, bool)>)
    requires fps > 0.0 && Usable(e, grid)
    ensures PressAll(film, fps, grid, e, keys).seek == Run(film, e.seek, TriesOf(film, fps, grid, e, keys))
  {
    if |keys| > 0 {
      var front, last := keys[..|keys| - 1], keys[|keys| - 1];
      KeysSeek(film, fps, grid, e, front);
      var before := TriesOf(film, fps, grid, e, front);
      match KeyCommand(fps, grid, PressAll(film, fps, grid, e, front), last.0)
      case Some(c) => assert (before + [Try(c, last.1)])[..|before|] == before;
      case None =>
    }
  }

  /** Decidable before the key is pressed. */
  predicate KeyKeepsSync(film: Film, fps: real, grid: nat, e: Editor, key: Key, accepted: bool)
    requires fps > 0.0 && Usable(e, grid)
  {
    var c := KeyCommand(fps, grid, e, key);
    c.Some? ==> TryKeepsSync(film, e.seek, c.value, accepted)
  }

  lemma KeyKeepsSyncIff(film: Film, fps: real, grid: nat, e: Editor, key: Key, accepted: bool)
    requires film.Valid() && fps > 0.0 && Usable(e, grid) && InSync(film, e.seek)
    ensures InSync(film, Press(film, fps, grid, e, key, accepted).seek) <==>
      KeyKeepsSync(film, fps, grid, e, key, accepted)
  {
    var c := KeyCommand(fps, grid, e, key);
    if c.Some? {
      TryKeepsSyncIff(film, e.seek, c.value, accepted);
    }
  }

  lemma OneMoreKey(film: Film, fps: real, grid: nat, e: Editor, keys: seq<(Key, bool)>, n: nat)
    requires fps > 0.0 && Usable(e, grid) && n < |keys|
    ensures PressAll(film, fps, grid, e, keys[..n + 1])
      == Press(film, fps, grid, PressAll(film, fps, grid, e, keys[..n]), keys[n].0, keys[n].1)
  {
    assert keys[..n + 1][..n] == keys[..n];
  }

  lemma OneMoreKeyIff(film: Film, fps: real, grid: nat, e: Editor, keys: seq<(Key, bool)>, n: nat)
    requires film.Valid() && fps > 0.0 && Usable(e, grid) && n < |keys|
    requires InSync(film, PressAll(film, fps, grid, e, keys[..n]).seek)
    ensures InSync(film, PressAll(film, fps, grid, e, keys[..n + 1]).seek) <==>
      KeyKeepsSync(film, fps, grid, PressAll(film, fps, grid, e, keys[..n]), keys[n].0, keys[n].1)
  {
    OneMoreKey(film, fps, grid, e, keys, n);
    KeyKeepsSyncIff(film, fps, grid, PressAll(film, fps, grid, e, keys[..n]), keys[n].0, keys[n].1);
  }

  lemma {:induction false} KeysInSyncSoFar(film: Film, fps: real, grid: nat, e: Editor, keys: seq<(Key, bool)>, n: nat)
    requires film.Valid() && fps > 0.0 && Usable(e, grid) && InSync(film, e.seek) && n <= |keys|
    requires forall k: nat | k < n ::
      KeyKeepsSync(film, fps, grid, PressAll(film, fps, grid, e, keys[..k]), keys[k].0, keys[k].1)
    ensures InSync(film, PressAll(film, fps, grid, e, keys[..n]).seek)
  {
    if n > 0 {
      KeysInSyncSoFar(film, fps, grid, e, keys, n - 1);
      OneMoreKeyIff(film, fps, grid, e, keys, n - 1);
    }
  }

  /** Every state a run of keys passes through is in sync exactly when each key meets its
      condition, whatever seeks are refused. */
  lemma KeysStayInSyncIff(film: Film, fps: real, grid: nat, e: Editor, keys: seq<(Key, bool)>)
    requires film.Valid() && fps > 0.0 && Usable(e, grid) && InSync(film, e.seek)
    ensures (forall n: nat | n <= |keys| :: InSync(film, PressAll(film, fps, grid, e, keys[..n]).seek)) <==>
      forall n: nat | n < |keys| ::
        KeyKeepsSync(film, fps, grid, PressAll(film, fps, grid, e, keys[..n]), keys[n].0, keys[n].1)
  {
    if forall n: nat | n <= |keys| :: InSync(film, PressAll(film, fps, grid, e, keys[..n]).seek) {
      forall n: nat | n < |keys|
        ensures KeyKeepsSync(film, fps, grid, PressAll(film, fps, grid, e, keys[..n]), keys[n].0, keys[n].1)
      {
        OneMoreKeyIff(film, fps, grid, e, keys, n);
      }
    } else if forall n: nat | n < |keys| ::
      KeyKeepsSync(film, fps, grid, PressAll(film, fps, grid, e, keys[..n]), keys[n].0, keys[n].1)
    {
      forall n: nat | n <= |keys|
        ensures InSync(film, PressAll(film, fps, grid, e, keys[..n]).seek)
      {
        KeysInSyncSoFar(film, fps, grid, e, keys, n);
      }
    }
  }

  /** A thumbnail keeps what it has until it is stored again. */
  lemma {:induction false} ThumbUntouched(film: Film, fps: real, grid: nat, e: Editor, keys: seq<(Key, bool)>,
                                          n: nat, m: nat, p: nat)
    requires fps > 0.0 && Usable(e, grid) && n <= m <= |keys| && p < |e.thumbs|
    requires forall k: nat | n <= k < m && keys[k].0.KeySelect? ::
      PressAll(film, fps, grid, e, keys[..k]).current != p
    ensures PressAll(film, fps, grid, e, keys[..m]).thumbs[p] == PressAll(film, fps, grid, e, keys[..n]).thumbs[p]
    decreases m
  {
    if n < m {
      ThumbUntouched(film, fps, grid, e, keys, n, m - 1, p);
      OneMoreKey(film, fps, grid, e, keys, m - 1);
      PressedThumb(film, fps, grid, PressAll(film, fps, grid, e, keys[..m - 1]), keys[m - 1].0, keys[m - 1].1, p);
    }
  }

  lemma PressedThumb(film: Film, fps: real, grid: nat, e: Editor, key: Key, accepted: bool, p: nat)
    requires fps > 0.0 && Usable(e, grid) && p < |e.thumbs| && (key.KeySelect? ==> e.current != p)
    ensures Press(film, fps, grid, e, key, accepted).thumbs[p] == e.thumbs[p]
  {
  }

  /** A thumbnail that a run of keys stored, and did not store again, leads back to the frame
      it was stored for, from any later state, exactly when the position was in sync then, or
      showed the border frame its index runs off at. */
  lemma KeptThumbLeadsBackIff(film: Film, fps: real, grid: nat, start: Editor, keys: seq<(Key, bool)>,
                              n: nat, later: Editor)
    requires film.Valid() && fps > 0.0 && Usable(start, grid) && Usable(later, grid)
    requires 0 <= start.seek.frame < film.total && (!film.Filtering() ==> start.seek.offset == 0)
    requires n < |keys| && keys[n].0.KeySelect?
    requires var p := PressAll(film, fps, grid, start, keys[..n]).current;
      && later.thumbs[p] == PressAll(film, fps, grid, start, keys).thumbs[p]
      && forall k: nat | n < k < |keys| && keys[k].0.KeySelect? ::
           PressAll(film, fps, grid, start, keys[..k]).current != p
    ensures var at := PressAll(film, fps, grid, start, keys[..n]);
      Press(film, fps, grid, later, KeyThumb(at.current), true).seek.frame == at.seek.frame <==>
        || InSync(film, at.seek)
        || (at.seek.frame == film.total - 1 && at.seek.Index() >= film.KeptTotal())
        || (at.seek.frame == 0 && at.seek.Index() < 0)
  {
    var e := PressAll(film, fps, grid, start, keys[..n]);
    KeysShowAFrame(film, fps, grid, start, keys[..n]);
    OneMoreKey(film, fps, grid, start, keys, n);
    assert keys[..|keys|] == keys;
    ThumbUntouched(film, fps, grid, start, keys, n + 1, |keys|, e.current);
    StoredFrame(film, fps, grid, e, keys[n].1);
    PickedFrame(film, fps, grid, later, e.current);
    ThumbRoundTripIff(film, e.seek, later.seek);
  }

  lemma KeysShowAFrame(film: Film, fps: real, grid: nat, start: Editor, keys: seq<(Key, bool)>)
    requires film.Valid() && fps > 0.0 && Usable(start, grid)
    requires 0 <= start.seek.frame < film.total && (!film.Filtering() ==> start.seek.offset == 0)
    ensures var s := PressAll(film, fps, grid, start, keys).seek;
      0 <= s.frame < film.total && (!film.Filtering() ==> s.offset == 0)
  {
    var tries := TriesOf(film, fps, grid, start, keys);
    KeysSeek(film, fps, grid, start, keys);
    RunShowsAFrame(film, start.seek, tries);
    if !film.Filtering() {
      UnusedCutlistHasNoOffset(film, start.seek, tries);
    }
  }

  // ----- chapter layout ----------------------------------------------------------------------

  function FinalDuration(item: ArchiveItem, cuts: DeleteMap, fps: real): int
    reads item`about, item`media, item`useCutlist
    requires fps > 0.0
  {
    if item.about.itemType == RECORDING && item.useCutlist
    then item.media.duration - Trunc(CutLength(cuts) as real / fps)
    else item.media.duration
  }

  /** A recording that uses its cuts loses the whole seconds of the frames they remove; any
      other item keeps its duration. */
  lemma FinalDurationIs(item: ArchiveItem, film: Film, fps: real)
    requires fps > 0.0 && film.Valid()
    ensures item.about.itemType != "Recording" || !item.useCutlist ==>
      FinalDuration(item, film.cuts, fps) == item.media.duration
    ensures item.about.itemType == "Recording" && item.useCutlist ==>
      var lost, cut := item.media.duration - FinalDuration(item, film.cuts, fps), CutBelow(film.cuts, film.total);
      lost as real * fps <= cut as real && cut as real < lost as real * fps + fps
  {
    CutLengthIsCutFrames(film.cuts, film.total);
    WholeSeconds(CutBelow(film.cuts, film.total), fps);
  }

  /** Only a recording that is known to have a cut list gets its marks loaded. */
  function LoadedCuts(item: ArchiveItem, marks: DeleteMap): DeleteMap
    reads item`about
  {
    if item.about.itemType == RECORDING && item.about.hasCutlist then marks else []
  }

  function ChapterLength(duration: int, count: nat): int {
    if count != 0 then TruncDiv(duration, count) else duration
  }

  function ChapterFrame(x: nat, chapterLen: int, fps: real): int {
    chapterLen * (x - 1) * Ceil(fps)
  }

  /** The title thumbnail is number 0; chapter x begins x-1 chapter lengths into the recording. */
  function DefaultThumb(dir: string, x: nat, chapterLen: int, fps: real): ThumbValue {
    if x == 0 then ThumbValue(TITLE_CAPTION, dir + "/title.jpg", 0)
    else ThumbValue(ChapterCaption(chapterLen * (x - 1)), dir + "/chapter-" + Decimal(x) + ".jpg",
                    ChapterFrame(x, chapterLen, fps))
  }

  /** The default thumbnails number `from` up to but not including `upTo`. */
  function Defaults(dir: string, from: nat, upTo: nat, chapterLen: int, fps: real): (r: seq<ThumbValue>)
    ensures |r| == if from < upTo then upTo - from else 0
    ensures forall i | 0 <= i < |r| :: r[i] == DefaultThumb(dir, from + i, chapterLen, fps)
  {
    if upTo <= from then []
    else Defaults(dir, from, upTo - 1, chapterLen, fps) + [DefaultThumb(dir, upTo - 1, chapterLen, fps)]
  }

  /** A list of thumbnails with the given ones first and defaults for the numbers they lack. */
  ghost predicate LaidOut(thumbs: seq<ThumbImage>, given: seq<ThumbImage>, upTo: nat,
                          dir: string, chapterLen: int, fps: real)
    reads thumbs
  {
    && given <= thumbs
    && Values(thumbs[|given|..]) == Defaults(dir, |given|, upTo, chapterLen, fps)
  }

  /** Chapters come in order, strictly when they have a length. */
  lemma ChaptersInOrder(duration: nat, count: nat, x: nat, y: nat, fps: real)
    requires fps > 0.0 && 0 < x < y <= count
    ensures var len := ChapterLength(duration, count);
      && 0 <= ChapterFrame(x, len, fps) <= ChapterFrame(y, len, fps)
      && (len > 0 ==> ChapterFrame(x, len, fps) < ChapterFrame(y, len, fps))
  {
    var len := ChapterLength(duration, count);
    CeilPositive(fps);
    ChapterStart(duration, count, x);
    SplitFactor(len, x - 1, y - x);
    ScaleFrames(len * (x - 1), len * (y - x), Ceil(fps));
  }

  /** Whole frames per second are counted for a chapter's frame, so that at a fractional rate
      it comes late. Its clock reading is still the second its caption names exactly as long
      as it is less than one second's frames late. */
  lemma ChapterReadsItsSecondIff(x: nat, chapterLen: nat, fps: real)
    requires fps > 0.0 && x > 0
    ensures var sec, frame := chapterLen * (x - 1), ChapterFrame(x, chapterLen, fps);
      && frame >= 0 && sec >= 0
      && (SecondOf(frame, fps) == sec <==> sec as real * (Ceil(fps) as real - fps) < fps)
  {
    CeilPositive(fps);
    SplitFactor(chapterLen, x - 1, 0);
    LateBy(chapterLen * (x - 1), Ceil(fps), fps);
  }

  lemma LateBy(sec: nat, scale: nat, fps: real)
    requires fps > 0.0 && fps <= scale as real
    ensures sec * scale >= 0
    ensures SecondOf(sec * scale, fps) == sec <==> sec as real * (scale as real - fps) < fps
  {
    WholeProduct(sec, scale);
    SecondIs(sec * scale, sec, fps);
    ProductMonotone(fps, scale as real, sec as real);
    assert sec as real * (scale as real - fps) == sec as real * scale as real - sec as real * fps;
  }

  /** At 29.97 frames per second, the chapter captioned 00:16:40 shows a frame of 00:16:41. */
  lemma ChapterFrameLate()
    ensures ChapterFrame(2, 1000, 29.97) == 30000 && ChapterCaption(1000) == "00:16:40"
    ensures ToClock(30000, 29.97).Caption() == "00:16:41"
  {
    LateSecond();
    SixteenMinutes(40);
    SixteenMinutes(41);
  }

  lemma LateSecond()
    ensures Ceil(29.97) == 30 && SecondOf(30000, 29.97) == 1001
  {
    SecondIs(30000, 1001, 29.97);
  }

  lemma SixteenMinutes(sec: nat)
    requires 10 <= sec < 60
    ensures Clock(0, 16, sec, 0).Caption() == "00:16:" + Decimal(sec)
    ensures Decimal(40) == "40" && Decimal(41) == "41"
  {
    assert Decimal(0) == "0" && Decimal(1) == "1" && Decimal(4) == "4" && Decimal(16) == "16";
    assert Pad2(0) == "00" && Pad2(16) == "16";
  }

  /** A chapter's caption reads back as the second it begins at, and it begins before a
      recording of positive duration is over. */
  lemma ChapterWithinRecording(dir: string, duration: nat, count: nat, x: nat, fps: real)
    requires 0 < x <= count
    ensures var len := ChapterLength(duration, count);
      var caption := DefaultThumb(dir, x, len, fps).caption;
      && |caption| >= 8 && CaptionSeconds(caption) == len * (x - 1)
      && (duration > 0 ==> 0 <= len * (x - 1) < duration)
  {
    var len := ChapterLength(duration, count);
    ChapterStart(duration, count, x);
    ChapterCaptionSeconds(len * (x - 1));
  }

  lemma ChapterStart(duration: nat, count: nat, x: nat)
    requires 0 < x <= count
    ensures var len := ChapterLength(duration, count);
      && len >= 0 && len * (x - 1) >= 0
      && (duration > 0 ==> len * (x - 1) < duration)
  {
    var len := ChapterLength(duration, count);
    assert len * count <= duration;
    SplitFactor(len, x - 1, count - x + 1);
  }

  lemma SplitFactor(len: nat, a: nat, b: nat)
    ensures len * a >= 0 && len * b >= 0 && len * (a + b) == len * a + len * b
    ensures len > 0 && b > 0 ==> len * b > 0
  {
  }

  lemma ScaleFrames(a: nat, step: nat, scale: nat)
    requires scale > 0
    ensures 0 <= a * scale <= (a + step) * scale
    ensures step > 0 ==> a * scale < (a + step) * scale
  {
    assert (a + step) * scale == a * scale + step * scale;
  }

  /** The thumbnails the editor starts from: the item's own, then the missing defaults. */
  function StartingThumbs(own: seq<ThumbValue>, dir: string, count: nat, duration: int, fps: real): seq<ThumbValue> {
    own + Defaults(dir, |own|, count + 1, ChapterLength(duration, count), fps)
  }

  /** There is a title and one thumbnail per chapter, or as many as the item has had already. */
  lemma StartingThumbsAre(own: seq<ThumbValue>, dir: string, count: nat, duration: int, fps: real, x: nat)
    ensures var thumbs := StartingThumbs(own, dir, count, duration, fps);
      && |thumbs| == (if |own| > count + 1 then |own| else count + 1)
      && (x < |thumbs| ==>
            thumbs[x] == if x < |own| then own[x] else DefaultThumb(dir, x, ChapterLength(duration, count), fps))
  {
    var rest := Defaults(dir, |own|, count + 1, ChapterLength(duration, count), fps);
    assert |own| <= x < |own| + |rest| ==> (own + rest)[x] == rest[x - |own|];
  }

  lemma LengthIs(duration: nat, count: nat, len: nat)
    requires count > 0 && len * count <= duration < len * count + count
    ensures ChapterLength(duration, count) == len
  {
    var found := duration / count;
    assert (found - len) * count == found * count - len * count;
    SmallMultiple(found - len, count);
  }

  /** The chapters that have no thumbnail yet divide the duration into equal lengths of whole
      seconds, as long as they can be: chapter x is x-1 of them in, its caption reads back as
      that second, which lies within the recording, its frame is that many seconds' frames at
      the rate rounded up, and later chapters never come before earlier ones. */
  lemma FirstLayout(own: seq<ThumbValue>, dir: string, count: nat, duration: nat, fps: real,
                    len: nat, c: int, x: nat, y: nat)
    requires fps > 0.0 && 0 < x <= y <= count && |own| <= x
    requires len * count <= duration < len * count + count && fps <= c as real < fps + 1.0
    ensures var thumbs := StartingThumbs(own, dir, count, duration, fps);
      && |thumbs| == count + 1 && own <= thumbs
      && (own == [] ==> thumbs[0] == ThumbValue("Title", dir + "/title.jpg", 0))
      && thumbs[x].filename == dir + "/chapter-" + Decimal(x) + ".jpg"
      && thumbs[x].frame == len * (x - 1) * c
      && thumbs[x].frame <= thumbs[y].frame && (len > 0 && x < y ==> thumbs[x].frame < thumbs[y].frame)
      && |thumbs[x].caption| >= 8 && CaptionSeconds(thumbs[x].caption) == len * (x - 1)
      && (duration > 0 ==> 0 <= len * (x - 1) < duration)
  {
    WholeRate(fps, c);
    LengthIs(duration, count, len);
    StartingThumbsAre(own, dir, count, duration, fps, 0);
    StartingThumbsAre(own, dir, count, duration, fps, x);
    StartingThumbsAre(own, dir, count, duration, fps, y);
    if x < y {
      ChaptersInOrder(duration, count, x, y, fps);
    }
    ChapterWithinRecording(dir, duration, count, x, fps);
  }

  /** Without chapters there is a title at most. */
  lemma TitleOnly(own: seq<ThumbValue>, dir: string, duration: int, fps: real)
    ensures StartingThumbs(own, dir, 0, duration, fps) ==
      if own == [] then [ThumbValue("Title", dir + "/title.jpg", 0)] else own
  {
    var len := ChapterLength(duration, 0);
    assert Defaults(dir, 0, 1, len, fps) == [DefaultThumb(dir, 0, len, fps)];
  }

  // ----- the editor ----------------------------------------------------------------------------------

  class ThumbFinder {
    const item: ArchiveItem
    const stream: Stream
    const thumbDir: string
    const thumbCount: nat

    var deleteMap: DeleteMap
    var offset: int
    var currentPTS: int
    var currentSeek: int
    var finalDuration: int
    var thumbList: seq<ThumbImage>
    var currentPos: nat
    /** The number of the picture on display, which currentPTS encodes. */
    ghost var shown: int

    function TheFilm(): Film
      reads this, item
    {
      Film(deleteMap, item.useCutlist, stream.total)
    }

    /** Pictures sit a whole number of frame times after the first one. */
    ghost predicate Aligned()
      reads this
    {
      0 <= shown < stream.total && currentPTS == stream.startPTS + shown * stream.frameTime
    }

    ghost predicate Ready()
      reads this, item
    {
      && stream.Valid()
      && TheFilm().Valid()
      && Aligned()
      && 0 <= currentSeek < |SEEK_AMOUNTS|
    }

    /** The working list shares no object with the item's list, and none with itself. */
    ghost predicate Separate()
      reads this, item
    {
      && (forall i, j | 0 <= i < j < |thumbList| :: thumbList[i] != thumbList[j])
      && (forall t | t in thumbList :: t !in item.thumbList)
    }

    ghost predicate Valid()
      reads this, item
    {
      Ready() && Separate() && currentPos <= thumbCount < |thumbList|
    }

    ghost function View(): SeekState
      reads this
    {
      SeekState(shown, offset)
    }

    ghost function State(): Editor
      reads this, item, thumbList
      requires Valid()
    {
      Editor(View(), currentSeek, currentPos, Values(thumbList))
    }

    constructor (item: ArchiveItem, stream: Stream, thumbDir: string, thumbCount: nat)
      requires stream.Valid()
      ensures this.item == item && this.stream == stream && this.thumbDir == thumbDir && this.thumbCount == thumbCount
      ensures Ready() && Separate() && deleteMap == []
      ensures View() == SeekState(0, 0) && currentSeek == 0 && currentPos == 0
      ensures Values(thumbList) == Values(item.thumbList)
      ensures forall i | 0 <= i < |thumbList| :: fresh(thumbList[i])
    {
      this.item, this.stream, this.thumbDir, this.thumbCount := item, stream, thumbDir, thumbCount;
      deleteMap, offset, currentSeek, currentPos, finalDuration := [], 0, 0, 0, 0;
      currentPTS := stream.startPTS;
      shown := 0;
      var copies := CopyThumbs(item.thumbList);
      thumbList := copies;
    }

    /** The decoder is taken to show the picture asked for, within the pictures the file has. */
    method GetFrameImage(frame: int)
      requires Ready()
      modifies this`currentPTS, this`shown
      ensures Ready() && View() == SeekState(TheFilm().Land(frame), old(offset))
    {
      var picture := if frame < 0 then 0 else if frame < stream.total then frame else stream.total - 1;
      currentPTS := stream.startPTS + picture * stream.frameTime;
      shown := picture;
    }

    method CurrentFrame() returns (frame: int)
      requires Ready()
      ensures frame == shown
    {
      WholeFrames(shown, stream.frameTime);
      frame := (currentPTS - stream.startPTS) / stream.frameTime;
    }

    method CheckFramePosition(frameNumber: int) returns (frame: int)
      requires Ready()
      modifies this`offset
      ensures !TheFilm().Filtering() ==> frame == frameNumber && offset == old(offset)
      ensures TheFilm().Filtering() ==>
        frame == Position(deleteMap, frameNumber) && offset == Offset(deleteMap, frameNumber)
      ensures TheFilm().Filtering() && frameNumber >= 0 ==>
        && frame >= frameNumber && !IsCut(deleteMap, frame)
        && KeptBelow(deleteMap, frame) == frameNumber && CutBelow(deleteMap, frame) == offset
    {
      if |deleteMap| == 0 || !item.useCutlist {
        return frameNumber;
      }
      var diff := 0;
      var it := 0;
      while it != |deleteMap|
        invariant 0 <= it <= |deleteMap| && it % 2 == 0
        invariant diff == Shift(deleteMap, it / 2, frameNumber)
        decreases |deleteMap| - it
      {
        var start := deleteMap[it].frame;
        it := it + 1;
        var end := deleteMap[it].frame;
        if start <= frameNumber + diff {
          diff := diff + end - start;
        }
        it := it + 1;
      }
      offset := diff;
      if frameNumber >= 0 {
        PositionIsKept(deleteMap, frameNumber);
      }
      return frameNumber + diff;
    }

    /** `accepted` is the decoder's answer to the request to seek. */
    method SeekToFrame(frame: int, checkPos: bool, accepted: bool) returns (ok: bool)
      requires Ready()
      modifies this`offset, this`currentPTS, this`shown
      ensures Ready() && ok == accepted
      ensures checkPos ==> View() == Attempt(TheFilm(), old(View()), JumpTo(frame), accepted)
      ensures !checkPos ==>
        View() == SeekState(if accepted then TheFilm().Land(frame) else old(shown), old(offset))
    {
      var target := frame;
      if checkPos {
        target := CheckFramePosition(frame);
      }
      if !accepted {
        return false;
      }
      GetFrameImage(target);
      return true;
    }

    method FindNextMark(current: int) returns (pos: int)
      ensures pos == TheFilm().NextMark(current)
    {
      pos := 0;
      var it := 0;
      while it != |deleteMap|
        invariant 0 <= it <= |deleteMap| && pos == 0
        invariant TheFilm().NextMark(current) == TheFilm().NextMark(current, it)
        decreases |deleteMap| - it
      {
        if deleteMap[it].frame > current {
          pos := deleteMap[it].frame;
          break;
        }
        it := it + 1;
      }
    }

    method FindPrevMark(current: int) returns (pos: int)
      ensures pos == TheFilm().PrevMark(current)
    {
      pos := 0;
      var it := 0;
      while it != |deleteMap|
        invariant 0 <= it <= |deleteMap|
        invariant TheFilm().PrevMark(current) == TheFilm().PrevMark(current, it, pos)
        decreases |deleteMap| - it
      {
        if deleteMap[it].frame >= current {
          break;
        }
        pos := deleteMap[it].frame;
        it := it + 1;
      }
    }

    /** A cut-point seek goes to its mark unchecked and drops the offset. */
    method SeekToMark(pos: int, accepted: bool)
      requires Ready()
      modifies this`offset, this`currentPTS, this`shown
      ensures Ready()
      ensures View() == SeekState(if accepted then TheFilm().Land(pos) else old(shown), 0)
    {
      offset := 0;
      var _ := SeekToFrame(pos, false, accepted);
    }

    /** A forward seek by some frames; the very next frame is decoded without seeking. */
    method MoveAhead(current: int, inc: nat, accepted: bool)
      requires Ready() && current == shown
      modifies this`offset, this`currentPTS, this`shown
      ensures Ready()
      ensures View() == Attempt(TheFilm(), old(View()), Ahead(inc), accepted)
    {
      var newFrame := current + inc - offset;
      if newFrame == current + 1 {
        GetFrameImage(current + 1);
      } else {
        var _ := SeekToFrame(newFrame, true, accepted);
      }
    }

    method SeekForward(accepted: bool)
      requires Ready()
      modifies this`offset, this`currentPTS, this`shown
      ensures Ready()
      ensures View() == Attempt(TheFilm(), old(View()), ForwardCommand(currentSeek, stream.fps), accepted)
    {
      var current := CurrentFrame();
      var inc := SEEK_AMOUNTS[currentSeek];
      CeilPositive(stream.fps);
      if inc == -1 {
        MoveAhead(current, 1, accepted);
      } else if inc == -2 {
        var pos := FindNextMark(current);
        SeekToMark(pos, accepted);
      } else {
        MoveAhead(current, inc * Ceil(stream.fps), accepted);
      }
    }

    method MoveBack(current: int, inc: nat, accepted: bool)
      requires Ready() && current == shown
      modifies this`offset, this`currentPTS, this`shown
      ensures Ready()
      ensures View() == Attempt(TheFilm(), old(View()), Back(inc), accepted)
    {
      var newFrame := current - inc - offset;
      var _ := SeekToFrame(newFrame, true, accepted);
    }

    method SeekBackward(accepted: bool)
      requires Ready()
      modifies this`offset, this`currentPTS, this`shown
      ensures Ready()
      ensures View() == Attempt(TheFilm(), old(View()), BackwardCommand(currentSeek, stream.fps), accepted)
    {
      var current := CurrentFrame();
      var inc := SEEK_AMOUNTS[currentSeek];
      CeilPositive(stream.fps);
      if inc == -1 {
        MoveBack(current, 1, accepted);
      } else if inc == -2 {
        var pos := FindPrevMark(current);
        SeekToMark(pos, accepted);
      } else {
        MoveBack(current, inc * Ceil(stream.fps), accepted);
      }
    }

    method ChangeSeekAmount(up: bool)
      requires Ready()
      modifies this`currentSeek
      ensures Ready()
      ensures currentSeek == (old(currentSeek) + (if up then 1 else -1)) % |SEEK_AMOUNTS|
    {
      if up {
        currentSeek := currentSeek + 1;
        if currentSeek >= |SEEK_AMOUNTS| {
          currentSeek := 0;
        }
      } else {
        currentSeek := currentSeek - 1;
        if currentSeek < 0 {
          currentSeek := |SEEK_AMOUNTS| - 1;
        }
      }
    }

    /** Picking an entry of the grid also shows its frame. */
    method SetItemCurrent(n: nat, accepted: bool)
      requires Valid()
      modifies this`currentPos, this`offset, this`currentPTS, this`shown
      ensures Valid() && currentPos == if n <= thumbCount then n else old(currentPos)
      ensures View() ==
        if currentPos == old(currentPos) then old(View())
        else Attempt(TheFilm(), old(View()), JumpTo(thumbList[currentPos].frame), accepted)
    {
      if n > thumbCount || n == currentPos {
        return;
      }
      currentPos := n;
      var _ := SeekToFrame(thumbList[currentPos].frame, true, accepted);
    }

    method UpdateThumb()
      requires Valid()
      modifies thumbList[currentPos]
      ensures Values(thumbList) ==
        old(Values(thumbList))[currentPos := Stored(old(thumbList[currentPos].Value()), currentPos, View(), stream.fps)]
      ensures Values(item.thumbList) == old(Values(item.thumbList))
    {
      ghost var before := Values(thumbList);
      ghost var pristine := Values(item.thumbList);
      ghost var view := View();
      var thumb := thumbList[currentPos];
      assert thumb in thumbList && thumb !in item.thumbList;
      var pos := CurrentFrame();
      StoreFrame(thumb, pos - offset, currentPos, stream.fps, view);
      assert View() == view;
      assert Values(thumbList) == before[currentPos := thumb.Value()];
      assert Values(item.thumbList) == pristine;
    }

    /** A number key picks that entry of the grid, if there is one, and seeks to its frame again. */
    method PickThumb(n: nat, accepted: bool)
      requires Valid()
      modifies this`currentPos, this`offset, this`currentPTS, this`shown
      ensures Valid() && currentPos == if n <= thumbCount then n else old(currentPos)
      ensures View() == Attempt(TheFilm(), old(View()), JumpTo(thumbList[currentPos].frame), accepted)
    {
      SetItemCurrent(n, accepted);
      var _ := SeekToFrame(thumbList[currentPos].frame, true, accepted);
    }

    /** The keys that move about: none of them touches a thumbnail. */
    method MoveKey(key: Key, accepted: bool)
      requires Valid() && !key.KeySelect?
      modifies this`currentSeek, this`currentPos, this`offset, this`currentPTS, this`shown
      ensures Valid()
      ensures State() == Press(TheFilm(), stream.fps, thumbCount + 1, old(State()), key, accepted)
    {
      ghost var e := State();
      match key {
        case KeyThumb(n) => PickThumb(n, accepted);
        case KeyUp => ChangeSeekAmount(true);
        case KeyDown => ChangeSeekAmount(false);
        case KeyLeft => SeekBackward(accepted);
        case KeyRight => SeekForward(accepted);
      }
      assert Values(thumbList) == e.thumbs;
    }

    method KeyPress(key: Key, accepted: bool)
      requires Valid()
      modifies this`currentSeek, this`currentPos, this`offset, this`currentPTS, this`shown, thumbList
      ensures Valid()
      ensures State() == Press(TheFilm(), stream.fps, thumbCount + 1, old(State()), key, accepted)
      ensures Values(item.thumbList) == old(Values(item.thumbList))
    {
      if key.KeySelect? {
        UpdateThumb();
      } else {
        MoveKey(key, accepted);
      }
    }

    method CalcFinalDuration() returns (duration: int)
      requires Ready()
      ensures duration == FinalDuration(item, deleteMap, stream.fps)
    {
      if item.about.itemType == RECORDING {
        if item.useCutlist {
          var cutLen := 0;
          var it := 0;
          while it != |deleteMap|
            invariant 0 <= it <= |deleteMap| && it % 2 == 0
            invariant cutLen == CutLengthBy(deleteMap, it / 2)
            decreases |deleteMap| - it
          {
            var start := deleteMap[it].frame;
            it := it + 1;
            var end := deleteMap[it].frame;
            cutLen := cutLen + end - start;
            it := it + 1;
          }
          return item.media.duration - Trunc(cutLen as real / stream.fps);
        }
      }
      return item.media.duration;
    }

    /** The frame of thumbnail x, which is created with its default details when missing. */
    method EnsureThumb(x: nat, chapterLen: int, ghost given: seq<ThumbImage>) returns (frame: int)
      requires Ready() && Separate() && |given| == |item.thumbList|
      requires LaidOut(thumbList, given, x, thumbDir, chapterLen, stream.fps)
      modifies this`thumbList
      ensures Ready() && Separate()
      ensures LaidOut(thumbList, given, x + 1, thumbDir, chapterLen, stream.fps)
      ensures x < |thumbList| && frame == (if 0 < x < |item.thumbList| then item.thumbList else thumbList)[x].frame
      ensures old(thumbList) <= thumbList && forall i | |old(thumbList)| <= i < |thumbList| :: fresh(thumbList[i])
    {
      if x < |item.thumbList| {
        frame := (if x == 0 then thumbList[0] else item.thumbList[x]).frame;
      } else {
        var thumb := NewDefault(thumbDir, x, chapterLen, stream.fps);
        LaidOutOneMore(thumbList, given, x, thumb, thumbDir, chapterLen, stream.fps);
        thumbList := thumbList + [thumb];
        frame := thumb.frame;
      }
    }

    /** A seek the decoder accepts. */
    method ShowFrame(frame: int)
      requires Ready()
      modifies this`offset, this`currentPTS, this`shown
      ensures Ready() && View() == Checked(TheFilm(), old(View()), frame)
    {
      var _ := SeekToFrame(frame, true, true);
    }

    method PlaceThumb(x: nat, chapterLen: int, ghost given: seq<ThumbImage>)
      requires Ready() && Separate() && |given| == |item.thumbList|
      requires LaidOut(thumbList, given, x, thumbDir, chapterLen, stream.fps)
      modifies this`thumbList, this`offset, this`currentPTS, this`shown
      ensures Ready() && Separate()
      ensures LaidOut(thumbList, given, x + 1, thumbDir, chapterLen, stream.fps)
      ensures old(thumbList) <= thumbList && forall i | |old(thumbList)| <= i < |thumbList| :: fresh(thumbList[i])
      ensures !TheFilm().Filtering() ==> offset == old(offset)
    {
      var frame := EnsureThumb(x, chapterLen, given);
      ShowFrame(frame);
    }

    /** Every thumbnail is shown once while its picture is made. */
    method LayOut(chapterLen: int)
      requires Ready() && Separate() && |thumbList| == |item.thumbList|
      modifies this`thumbList, this`offset, this`currentPTS, this`shown
      ensures Ready() && Separate()
      ensures LaidOut(thumbList, old(thumbList), thumbCount + 1, thumbDir, chapterLen, stream.fps)
      ensures forall i | |old(thumbList)| <= i < |thumbList| :: fresh(thumbList[i])
      ensures !TheFilm().Filtering() ==> offset == old(offset)
    {
      ghost var given := thumbList;
      for x := 0 to thumbCount + 1
        invariant Ready() && Separate()
        invariant LaidOut(thumbList, given, x, thumbDir, chapterLen, stream.fps)
        invariant forall i | |given| <= i < |thumbList| :: fresh(thumbList[i])
        invariant !TheFilm().Filtering() ==> offset == old(offset)
      {
        PlaceThumb(x, chapterLen, given);
      }
    }

    method ShowThumbs()
      requires Ready() && Separate() && offset == 0 && currentPos == 0 && |thumbList| == |item.thumbList|
      modifies this`thumbList, this`offset, this`currentPTS, this`shown, this`finalDuration
      ensures Valid()
      ensures finalDuration == FinalDuration(item, deleteMap, stream.fps)
      ensures LaidOut(thumbList, old(thumbList), thumbCount + 1, thumbDir,
                   ChapterLength(finalDuration, thumbCount), stream.fps)
      ensures forall i | |old(thumbList)| <= i < |thumbList| :: fresh(thumbList[i])
      ensures View() == Checked(TheFilm(), SeekState(0, 0), 0)
    {
      finalDuration := CalcFinalDuration();
      LayOut(ChapterLength(finalDuration, thumbCount));
      ShowFrame(0);
    }

    /** The thumbnails already there are kept; the title and the chapters that have none are
        laid out over the final duration; and the first kept frame is shown. */
    method GetThumbImages(probe: Probe, marks: DeleteMap, openable: bool) returns (ok: bool)
      requires Ready() && Separate() && deleteMap == [] && offset == 0 && currentPos == 0
      requires |thumbList| == |item.thumbList|
      requires Film(marks, item.useCutlist, stream.total).Valid()
      modifies this`deleteMap, this`thumbList, this`offset, this`currentPTS, this`shown, this`finalDuration, item`media
      ensures item.media == MediaAfter(old(item.media), probe)
      ensures ok == (probe.Probed? && openable)
      ensures !ok ==> thumbList == old(thumbList)
      ensures ok ==>
        && Valid()
        && deleteMap == (if item.about.itemType == "Recording" && item.about.hasCutlist then marks else [])
        && finalDuration == FinalDuration(item, deleteMap, stream.fps)
        && LaidOut(thumbList, old(thumbList), thumbCount + 1, thumbDir,
                   ChapterLength(finalDuration, thumbCount), stream.fps)
        && (forall i | |old(thumbList)| <= i < |thumbList| :: fresh(thumbList[i]))
        && View() == Checked(TheFilm(), SeekState(0, 0), 0)
    {
      ok := GetFileDetails(item, probe);
      if !ok {
        return;
      }
      if item.about.itemType == RECORDING && item.about.hasCutlist {
        deleteMap := marks;
      }
      if openable {
        ShowThumbs();
      }
      return openable;
    }

    /** Fills a new editor. */
    method Open(probe: Probe, marks: DeleteMap, openable: bool) returns (ok: bool)
      requires Ready() && Separate() && deleteMap == [] && View() == SeekState(0, 0)
      requires currentSeek == 0 && currentPos == 0 && Values(thumbList) == Values(item.thumbList)
      requires Film(marks, item.useCutlist, stream.total).Valid()
      modifies this`deleteMap, this`thumbList, this`offset, this`currentPTS, this`shown, this`finalDuration, item`media
      ensures item.media == MediaAfter(old(item.media), probe)
      ensures ok == (probe.Probed? && openable)
      ensures Separate() && old(thumbList) <= thumbList
      ensures forall i | |old(thumbList)| <= i < |thumbList| :: fresh(thumbList[i])
      ensures !ok ==> thumbList == old(thumbList)
      ensures ok ==>
        && Valid()
        && TheFilm() == Film(LoadedCuts(item, marks), item.useCutlist, stream.total)
        && State() == Opened(item, TheFilm(), thumbDir, thumbCount, stream.fps)
    {
      ghost var given, own := thumbList, Values(thumbList);
      ok := GetThumbImages(probe, marks, openable);
      if ok {
        LaidOutValues(thumbList, given, thumbCount + 1, thumbDir, ChapterLength(finalDuration, thumbCount), stream.fps);
        assert Values(given) == own && Values(item.thumbList) == own;
      }
    }

    method SavePressed()
      requires Separate()
      modifies item`thumbList
      ensures Values(item.thumbList) == old(Values(thumbList))
      ensures forall i | 0 <= i < |item.thumbList| :: fresh(item.thumbList[i])
      ensures Separate()
    {
      item.thumbList := [];
      var copies := CopyThumbs(thumbList);
      item.thumbList := copies;
    }

    method CancelPressed()
    {
    }
  }

  /** The state of an editor that has just been opened on an item. */
  ghost function Opened(item: ArchiveItem, film: Film, dir: string, count: nat, fps: real): Editor
    requires fps > 0.0
    reads item, item.thumbList
  {
    Editor(Checked(film, SeekState(0, 0), 0), 0, 0,
           StartingThumbs(Values(item.thumbList), dir, count, FinalDuration(item, film.cuts, fps), fps))
  }

  method OpenEditor(item: ArchiveItem, stream: Stream, dir: string, count: nat, probe: Probe,
                    marks: DeleteMap, openable: bool)
    returns (finder: ThumbFinder, ready: bool)
    requires stream.Valid() && Film(marks, item.useCutlist, stream.total).Valid()
    modifies item`media
    ensures fresh(finder) && (forall i | 0 <= i < |finder.thumbList| :: fresh(finder.thumbList[i]))
    ensures finder.item == item && finder.stream == stream && finder.thumbCount == count
    ensures item.media == MediaAfter(old(item.media), probe)
    ensures ready == (probe.Probed? && openable)
    ensures finder.Separate()
    ensures !ready ==> Values(finder.thumbList) == Values(item.thumbList)
    ensures ready ==>
      && finder.Valid()
      && finder.TheFilm() == Film(LoadedCuts(item, marks), item.useCutlist, stream.total)
      && finder.State() == Opened(item, finder.TheFilm(), dir, count, stream.fps)
  {
    finder := new ThumbFinder(item, stream, dir, count);
    ready := finder.Open(probe, marks, openable);
  }

  lemma LaidOutValues(thumbs: seq<ThumbImage>, given: seq<ThumbImage>, upTo: nat,
                      dir: string, chapterLen: int, fps: real)
    requires LaidOut(thumbs, given, upTo, dir, chapterLen, fps)
    ensures Values(thumbs) == Values(given) + Defaults(dir, |given|, upTo, chapterLen, fps)
  {
    assert thumbs == given + thumbs[|given|..];
  }

  /** Editing is a transaction on the item's thumbnails: whatever keys are pressed, the item
      keeps them as they were unless the edit is saved, and then has exactly what the keys made. */
  method EditThumbnails(item: ArchiveItem, stream: Stream, dir: string, count: nat, probe: Probe,
                        marks: DeleteMap, openable: bool, keys: seq<(Key, bool)>, save: bool)
    returns (ghost start: Editor, ghost film: Film)
    requires stream.Valid() && Film(marks, item.useCutlist, stream.total).Valid()
    modifies item`media, item`thumbList
    ensures item.media == MediaAfter(old(item.media), probe)
    ensures item.Value() == old(item.Value()).(media := MediaAfter(old(item.media), probe))
    ensures film == Film(LoadedCuts(item, marks), item.useCutlist, stream.total)
    ensures start.seek == Checked(film, SeekState(0, 0), 0) && start.amount == 0 && start.current == 0
    ensures start.thumbs ==
      StartingThumbs(old(Values(item.thumbList)), dir, count, FinalDuration(item, film.cuts, stream.fps), stream.fps)
    ensures Usable(start, count + 1)
    ensures Values(item.thumbList) ==
      if save && probe.Probed? && openable then PressAll(film, stream.fps, count + 1, start, keys).thumbs
      else old(Values(item.thumbList))
  {
    ghost var own := Values(item.thumbList);
    var finder, ready := OpenEditor(item, stream, dir, count, probe, marks, openable);
    film := Film(LoadedCuts(item, marks), item.useCutlist, stream.total);
    assert Values(item.thumbList) == own;
    ghost var duration := FinalDuration(item, film.cuts, stream.fps);
    start := Editor(Checked(film, SeekState(0, 0), 0), 0, 0, StartingThumbs(own, dir, count, duration, stream.fps));
    assert Usable(start, count + 1);
    UseEditor(finder, ready, keys, save);
    assert FinalDuration(item, film.cuts, stream.fps) == duration;
  }

  /** The keys act on an editor that could show its file; either way it can be left by saving. */
  method UseEditor(finder: ThumbFinder, ready: bool, keys: seq<(Key, bool)>, save: bool)
    requires finder.Separate() && (ready ==> finder.Valid())
    modifies finder`currentSeek, finder`currentPos, finder`offset, finder`currentPTS, finder`shown, finder.thumbList
    modifies finder.item`thumbList
    ensures save && ready ==>
      Values(finder.item.thumbList) ==
      PressAll(finder.TheFilm(), finder.stream.fps, finder.thumbCount + 1, old(finder.State()), keys).thumbs
    ensures save && !ready ==> Values(finder.item.thumbList) == old(Values(finder.thumbList))
    ensures !save ==> Values(finder.item.thumbList) == old(Values(finder.item.thumbList))
  {
    if ready {
      RunKeys(finder, keys);
    }
    if save {
      finder.SavePressed();
    } else {
      finder.CancelPressed();
    }
  }

  method RunKeys(finder: ThumbFinder, keys: seq<(Key, bool)>)
    requires finder.Valid()
    modifies finder`currentSeek, finder`currentPos, finder`offset, finder`currentPTS, finder`shown, finder.thumbList
    ensures finder.Valid()
    ensures finder.State() ==
      PressAll(finder.TheFilm(), finder.stream.fps, finder.thumbCount + 1, old(finder.State()), keys)
    ensures Values(finder.item.thumbList) == old(Values(finder.item.thumbList))
  {
    ghost var start := finder.State();
    for k := 0 to |keys|
      invariant finder.Valid()
      invariant finder.State() == PressAll(finder.TheFilm(), finder.stream.fps, finder.thumbCount + 1, start, keys[..k])
      invariant Values(finder.item.thumbList) == old(Values(finder.item.thumbList))
    {
      finder.KeyPress(keys[k].0, keys[k].1);
      assert keys[..k + 1][..k] == keys[..k];
    }
    assert keys[..|keys|] == keys;
  }

  lemma LaidOutOneMore(thumbs: seq<ThumbImage>, given: seq<ThumbImage>, x: nat, thumb: ThumbImage,
                       dir: string, chapterLen: int, fps: real)
    requires LaidOut(thumbs, given, x, dir, chapterLen, fps) && |given| <= x
    requires thumb.Value() == DefaultThumb(dir, x, chapterLen, fps)
    ensures LaidOut(thumbs + [thumb], given, x + 1, dir, chapterLen, fps)
  {
    assert (thumbs + [thumb])[|given|..] == thumbs[|given|..] + [thumb];
  }

  method NewDefault(dir: string, x: nat, chapterLen: int, fps: real) returns (thumb: ThumbImage)
    ensures fresh(thumb) && thumb.Value() == DefaultThumb(dir, x, chapterLen, fps)
  {
    if x == 0 {
      thumb := new ThumbImage(ThumbValue(TITLE_CAPTION, dir + "/title.jpg", 0));
    } else {
      thumb := NewChapter(dir, x, chapterLen, fps);
    }
  }

  method NewChapter(dir: string, x: nat, chapterLen: int, fps: real) returns (thumb: ThumbImage)
    requires x > 0
    ensures fresh(thumb) && thumb.Value() == DefaultThumb(dir, x, chapterLen, fps)
  {
    var chapter := chapterLen * (x - 1);
    var hour, min, sec := TruncDiv(chapter, 3600), TruncDiv(TruncMod(chapter, 3600), 60), TruncMod(chapter, 60);
    var time := Pad2(hour) + ":" + Pad2(min) + ":" + Pad2(sec);
    thumb := new ThumbImage(ThumbValue(time, dir + "/chapter-" + Decimal(x) + ".jpg", chapter * Ceil(fps)));
  }

  method StoreFrame(thumb: ThumbImage, frame: int, position: nat, fps: real, ghost s: SeekState)
    requires fps > 0.0 && frame == s.Index()
    modifies thumb
    ensures thumb.Value() == Stored(old(thumb.Value()), position, s, fps)
  {
    thumb.frame := frame;
    if position != 0 {
      thumb.caption := ToClock(frame, fps).Caption();
    }
  }

  lemma Scale(a: int, b: int, d: int)
    requires d > 0 && a <= b
    ensures a * d <= b * d
  {
  }

  lemma SmallMultiple(a: int, d: int)
    requires d > 0 && -d < a * d < d
    ensures a == 0
  {
    if a >= 1 {
      Scale(1, a, d);
    } else if a <= -1 {
      Scale(a, -1, d);
    }
  }

  lemma WholeFrames(frame: int, frameTime: int)
    requires frameTime > 0
    ensures frame * frameTime / frameTime == frame
  {
    var n := frame * frameTime;
    var k, m := n / frameTime, n % frameTime;
    assert n == frameTime * k + m;
    assert (frame - k) * frameTime == m;
    SmallMultiple(frame - k, frameTime);
  }

  method CopyThumbs(thumbs: seq<ThumbImage>) returns (copies: seq<ThumbImage>)
    ensures Values(copies) == Values(thumbs)
    ensures forall i | 0 <= i < |copies| :: fresh(copies[i])
    ensures forall i, j | 0 <= i < j < |copies| :: copies[i] != copies[j]
  {
    copies := [];
    for x := 0 to |thumbs|
      invariant |copies| == x
      invariant forall i | 0 <= i < x :: fresh(copies[i]) && copies[i].Value() == thumbs[i].Value()
      invariant forall i, j | 0 <= i < j < x :: copies[i] != copies[j]
    {
      var thumb := new ThumbImage(thumbs[x].Value());
      copies := copies + [thumb];
    }
  }
}
