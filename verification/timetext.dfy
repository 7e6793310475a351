/** Numbers as printed text, and the clock reading of a frame number. */
module TimeText {

  /** Conversion of a floating-point value to an integer drops the fraction. */
  function Trunc(r: real): int {
    if r >= 0.0 then r.Floor else -((-r).Floor)
  }

  function Ceil(r: real): int {
    -((-r).Floor)
  }

  /** Integer division and remainder that round toward zero. */
  function TruncDiv(a: int, b: int): int
    requires b > 0
  {
    if a >= 0 then a / b else -((-a) / b)
  }

  function TruncMod(a: int, b: int): int
    requires b > 0
  {
    a - TruncDiv(a, b) * b
  }

  // ----- decimal text ------------------------------------------------------------------

  function Digit(d: nat): char
    requires d < 10
  {
    '0' + d as char
  }

  function Decimal(n: nat): (s: string)
    ensures |s| > 0
  {
    if n < 10 then [Digit(n)] else Decimal(n / 10) + [Digit(n % 10)]
  }

  /** Reads a text of digits back as a number. */
  function Value(s: string): int {
    if |s| == 0 then 0 else Value(s[..|s| - 1]) * 10 + (s[|s| - 1] as int - '0' as int)
  }

  lemma {:induction false} ValueOfDecimal(n: nat)
    ensures Value(Decimal(n)) == n
  {
    if n >= 10 {
      ValueOfDecimal(n / 10);
      assert Decimal(n)[..|Decimal(n)| - 1] == Decimal(n / 10);
    } else {
      assert Decimal(n)[..0] == "";
    }
  }

  /** A number printed at least two characters wide, zero-filled. */
  function Pad2(n: int): (s: string)
    ensures |s| >= 2
    ensures 0 <= n < 100 ==> |s| == 2
  {
    if n < 0 then "-" + Decimal(-n)
    else if n < 10 then "0" + Decimal(n)
    else
      assert n < 100 ==> Decimal(n) == Decimal(n / 10) + [Digit(n % 10)] && |Decimal(n / 10)| == 1;
      assert |Decimal(n / 10)| >= 1;
      Decimal(n)
  }

  lemma ValueOfPad2(n: nat)
    ensures Value(Pad2(n)) == n
  {
    ValueOfDecimal(n);
    if n < 10 {
      var s := Pad2(n);
      assert s[..1] == "0" && s[..1][..0] == "";
      assert Value("0") == 0;
    }
  }

  // ----- clock readings ------------------------------------------------------------------

  datatype Clock = Clock(hour: int, min: int, sec: int, frame: int) {
    function Seconds(): int {
      hour * 3600 + min * 60 + sec
    }

    function Caption(): string {
      Pad2(hour) + ":" + Pad2(min) + ":" + Pad2(sec)
    }
  }

  function SecondOf(frame: int, fps: real): int
    requires fps > 0.0
  {
    Trunc(frame as real / fps)
  }

  function FirstFrameOf(sec: int, fps: real): int {
    Trunc(sec as real * fps)
  }

  function SplitSeconds(sec: int, rest: int): Clock {
    var min := TruncDiv(sec, 60);
    Clock(TruncDiv(min, 60), TruncMod(min, 60), TruncMod(sec, 60), rest)
  }

  /** The clock reading shown for a frame number. */
  function ToClock(frame: int, fps: real): Clock
    requires fps > 0.0
  {
    var sec := SecondOf(frame, fps);
    SplitSeconds(sec, frame - FirstFrameOf(sec, fps))
  }

  /** The frame a clock reading names: the first of its second, plus the frames into it. */
  function FromClock(c: Clock, fps: real): int {
    FirstFrameOf(c.Seconds(), fps) + c.frame
  }

  /** The running caption of a chapter that begins at a given second. */
  function ChapterCaption(seconds: int): string {
    Clock(TruncDiv(seconds, 3600), TruncDiv(TruncMod(seconds, 3600), 60), TruncMod(seconds, 60), 0).Caption()
  }

  lemma PositiveProduct(a: real, b: real)
    requires a > 0.0 && b > 0.0
    ensures a * b > 0.0
  {
  }

  lemma ScaleAbove(f: real, q: real, sec: real, fps: real)
    requires fps > 0.0 && q < sec + 1.0 && f == q * fps
    ensures f < sec * fps + fps
  {
    PositiveProduct(sec + 1.0 - q, fps);
    assert (sec + 1.0 - q) * fps == sec * fps + fps - q * fps;
  }

  lemma ScaleBelow(f: real, q: real, sec: real, fps: real)
    requires fps > 0.0 && sec <= q && f == q * fps
    ensures sec * fps <= f
  {
    if sec < q {
      PositiveProduct(q - sec, fps);
      assert (q - sec) * fps == q * fps - sec * fps;
    }
  }

  lemma NonNegativeQuotient(f: real, q: real, fps: real)
    requires fps > 0.0 && f >= 0.0 && f == q * fps
    ensures q >= 0.0
  {
    if q < 0.0 {
      PositiveProduct(-q, fps);
    }
  }

  /** A frame's second begins no later than the frame, and the next one begins after it. */
  lemma WholeSeconds(frame: nat, fps: real)
    requires fps > 0.0
    ensures var sec := SecondOf(frame, fps);
      && sec == (frame as real / fps).Floor
      && sec >= 0
      && sec as real * fps <= frame as real
      && frame as real < sec as real * fps + fps
  {
    var f := frame as real;
    var q := f / fps;
    assert f == q * fps;
    NonNegativeQuotient(f, q, fps);
    ScaleAbove(f, q, q.Floor as real, fps);
    ScaleBelow(f, q, q.Floor as real, fps);
  }

  /** There is only one such second. */
  lemma SecondIs(frame: nat, sec: nat, fps: real)
    requires fps > 0.0
    ensures SecondOf(frame, fps) == sec <==>
      sec as real * fps <= frame as real && frame as real < sec as real * fps + fps
  {
    WholeSeconds(frame, fps);
    var found := SecondOf(frame, fps);
    OnlySecond(frame as real, found, sec, found as real * fps, sec as real * fps, fps);
  }

  lemma OnlySecond(f: real, found: nat, sec: nat, x: real, y: real, fps: real)
    requires fps > 0.0 && x == found as real * fps && y == sec as real * fps
    requires x <= f < x + fps
    ensures found == sec <==> y <= f < y + fps
  {
    if found < sec {
      LaterSecond(found, sec, x, y, fps);
    } else if sec < found {
      LaterSecond(sec, found, y, x, fps);
    }
  }

  lemma LaterSecond(a: nat, b: nat, x: real, y: real, fps: real)
    requires fps > 0.0 && a < b && x == a as real * fps && y == b as real * fps
    ensures x + fps <= y
  {
    var more := (b - a) as real - 1.0;
    ScaleBelow(more * fps, more, 0.0, fps);
    assert more * fps == b as real * fps - a as real * fps - fps;
  }

  lemma Sixties(sec: nat, rest: int)
    ensures var c := SplitSeconds(sec, rest);
      0 <= c.hour && 0 <= c.min < 60 && 0 <= c.sec < 60 && c.Seconds() == sec
  {
  }

  lemma LeftoverFrames(frame: nat, sec: nat, fps: real)
    requires fps > 0.0
    requires sec as real * fps <= frame as real
    requires frame as real < sec as real * fps + fps
    ensures var rest := frame - FirstFrameOf(sec, fps);
      0 <= rest && rest as real < fps + 1.0
  {
    if sec > 0 {
      PositiveProduct(sec as real, fps);
    }
    FloorOfStart(frame, sec as real * fps, fps);
  }

  lemma FloorOfStart(frame: nat, start: real, fps: real)
    requires 0.0 <= start <= frame as real && frame as real < start + fps
    ensures 0 <= frame - Trunc(start) && (frame - Trunc(start)) as real < fps + 1.0
  {
  }

  /** Minutes and seconds stay below sixty, the reading counts the whole seconds of the
      frame's time, and the leftover frames are fewer than one second's worth, rounded up. */
  lemma ClockMeaning(frame: nat, fps: real)
    requires fps > 0.0
    ensures var c := ToClock(frame, fps);
      && 0 <= c.hour && 0 <= c.min < 60 && 0 <= c.sec < 60
      && c.Seconds() == (frame as real / fps).Floor
      && 0 <= c.frame && c.frame as real < fps + 1.0
      && FromClock(c, fps) == frame
  {
    WholeSeconds(frame, fps);
    var sec := SecondOf(frame, fps);
    LeftoverFrames(frame, sec, fps);
    var start := FirstFrameOf(sec, fps);
    Sixties(sec, frame - start);
    assert SplitSeconds(sec, frame - start).Seconds() == sec;
  }

  /** Different frames never share a clock reading. */
  lemma ClockInjective(a: nat, b: nat, fps: real)
    requires fps > 0.0 && a != b
    ensures ToClock(a, fps) != ToClock(b, fps)
  {
    ClockMeaning(a, fps);
    ClockMeaning(b, fps);
  }

  /** Reads an "hh:mm:ss" caption back as seconds. */
  function CaptionSeconds(s: string): int
    requires |s| >= 8
  {
    Value(s[..|s| - 6]) * 3600 + Value(s[|s| - 5..|s| - 3]) * 60 + Value(s[|s| - 2..])
  }

  lemma CaptionReadsBack(c: Clock)
    requires 0 <= c.hour && 0 <= c.min < 60 && 0 <= c.sec < 60
    ensures |c.Caption()| >= 8
    ensures CaptionSeconds(c.Caption()) == c.Seconds()
  {
    var s := c.Caption();
    assert s[..|s| - 6] == Pad2(c.hour);
    assert s[|s| - 5..|s| - 3] == Pad2(c.min);
    assert s[|s| - 2..] == Pad2(c.sec);
    ValueOfPad2(c.hour);
    ValueOfPad2(c.min);
    ValueOfPad2(c.sec);
  }

  /** A stored thumbnail caption tells the whole seconds of the frame it was stored for. */
  lemma FrameCaptionSeconds(frame: nat, fps: real)
    requires fps > 0.0
    ensures |ToClock(frame, fps).Caption()| >= 8
    ensures CaptionSeconds(ToClock(frame, fps).Caption()) == (frame as real / fps).Floor
  {
    ClockMeaning(frame, fps);
    CaptionReadsBack(ToClock(frame, fps));
  }

  lemma ChapterCaptionSeconds(seconds: nat)
    ensures |ChapterCaption(seconds)| >= 8
    ensures CaptionSeconds(ChapterCaption(seconds)) == seconds
  {
    CaptionReadsBack(Clock(TruncDiv(seconds, 3600), TruncDiv(TruncMod(seconds, 3600), 60), TruncMod(seconds, 60), 0));
  }
}
