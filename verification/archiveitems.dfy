/** The items of an archive job, their encoder profiles and the size each is expected to take. */
module ArchiveItems {
  import opened TimeText

  datatype Option<+T> = None | Some(value: T)

  const RECORDING := "Recording"

  /** Profiles are read once and never change. */
  datatype EncoderProfile = EncoderProfile(name: string, description: string, bitrate: real)

  const NO_REENCODING := "NONE"

  datatype ThumbValue = ThumbValue(caption: string, filename: string, frame: int)

  class ThumbImage {
    var caption: string
    var filename: string
    var frame: int

    constructor (v: ThumbValue)
      ensures Value() == v
    {
      caption, filename, frame := v.caption, v.filename, v.frame;
    }

    function Value(): ThumbValue
      reads this
    {
      ThumbValue(caption, filename, frame)
    }
  }

  ghost function Values(thumbs: seq<ThumbImage>): (r: seq<ThumbValue>)
    reads thumbs
  {
    seq(|thumbs|, i requires 0 <= i < |thumbs| reads thumbs => thumbs[i].Value())
  }

  /** What a selector or the item table says about an item. */
  datatype About = About(
    itemType: string, title: string, subtitle: string, description: string,
    startDate: string, startTime: string, size: int, filename: string, hasCutlist: bool)

  /** What probing the file says about it. */
  datatype Media = Media(
    duration: int, cutDuration: int, videoWidth: int, videoHeight: int,
    fileCodec: string, videoCodec: string)

  const UNPROBED := Media(0, 0, 0, 0, "", "")

  /** What the burn screen goes by, of an item; the size is absent where the program leaves
      it undefined. */
  datatype ItemValue = ItemValue(about: About, media: Media, profile: Option<EncoderProfile>,
                                 useCutlist: bool, size: Option<int>)
  {
    predicate UsingCuts() {
      about.hasCutlist && useCutlist
    }

    /** The size formula has a value. */
    predicate Sizeable() {
      && profile.Some?
      && (media.duration != 0 || (profile.value.name == NO_REENCODING && !UsingCuts()))
    }

    /** The size after it is computed again: without a profile, or without a duration to
        encode, it is left alone; a copied item that uses its cuts but has no duration gets
        no defined size. */
    function Resized(): ItemValue {
      if Sizeable() then this.(size := Some(SizeFor(about.size, UsingCuts(), media, profile.value)))
      else if profile.Some? && profile.value.name == NO_REENCODING then this.(size := None)
      else this
    }

    function Chosen(profile: EncoderProfile): ItemValue {
      this.(profile := Some(profile)).Resized()
    }

    function CutToggled(): ItemValue {
      if about.hasCutlist then this.(useCutlist := !useCutlist).Resized() else this
    }

    /** The same item, with a size that is the same as far as the other's is defined. */
    predicate Covers(other: ItemValue) {
      this.(size := other.size) == other && (other.size.Some? ==> size == other.size)
    }

    predicate SizeKnown() {
      Sizeable() ==> size == Some(SizeFor(about.size, UsingCuts(), media, profile.value))
    }
  }

  class ArchiveItem {
    var about: About
    var media: Media
    var newsize: int
    var encoderProfile: Option<EncoderProfile>
    var useCutlist: bool
    var editedDetails: bool
    var thumbList: seq<ThumbImage>

    /** newsize is left for RecalcItemSize to set. */
    constructor (about: About, media: Media, profile: Option<EncoderProfile>)
      ensures this.about == about && this.media == media && encoderProfile == profile
      ensures !useCutlist && !editedDetails && thumbList == []
    {
      this.about, this.media, encoderProfile := about, media, profile;
      newsize := *;
      useCutlist, editedDetails, thumbList := false, false, [];
    }

    predicate UsingCuts()
      reads this
    {
      about.hasCutlist && useCutlist
    }

    function Value(): ItemValue
      reads this
    {
      ItemValue(about, media, encoderProfile, useCutlist, Some(newsize))
    }

    /** The item is as a value says, as far as that is defined. */
    predicate Shows(v: ItemValue)
      reads this
    {
      Value().Covers(v)
    }

    /** The program's size formula has a value for this item. */
    predicate Sizeable()
      reads this
    {
      && encoderProfile.Some?
      && (media.duration != 0 || (encoderProfile.value.name == NO_REENCODING && !UsingCuts()))
    }

    function ExpectedSize(): int
      reads this
      requires Sizeable()
    {
      SizeFor(about.size, UsingCuts(), media, encoderProfile.value)
    }

    predicate SizeIsCurrent()
      reads this
    {
      Sizeable() ==> newsize == ExpectedSize()
    }
  }

  /** Sizes computed again stay the same as far as they are defined. */
  lemma CoversResized(v: ItemValue, w: ItemValue)
    requires v.Covers(w)
    ensures v.Resized().Covers(w.Resized())
  {
  }

  /** Floating-point division by a zero cut duration gives infinity, and dividing by that gives zero. */
  function CopiedSize(size: int, duration: int, cutDuration: int): int
    requires duration != 0
  {
    if cutDuration == 0 then 0 else Trunc(size as real / (duration as real / cutDuration as real))
  }

  function EncodedSize(seconds: int, bitrate: real): int {
    Trunc(seconds as real / 3600.0 * bitrate * 1024.0 * 1024.0)
  }

  function SizeFor(size: int, usingCuts: bool, media: Media, profile: EncoderProfile): int
    requires media.duration != 0 || (profile.name == NO_REENCODING && !usingCuts)
  {
    if profile.name == NO_REENCODING then
      if usingCuts then CopiedSize(size, media.duration, media.cutDuration) else size
    else
      EncodedSize(if usingCuts then media.cutDuration else media.duration, profile.bitrate)
  }

  /** Without a profile, or without a duration to encode, the size is left alone; a copied
      item that uses its cuts but has no duration gets no defined size. */
  method RecalcItemSize(item: ArchiveItem)
    modifies item`newsize
    ensures item.SizeIsCurrent()
    ensures item.Shows(old(item.Value()).Resized())
    ensures item.encoderProfile == None ==> item.newsize == old(item.newsize)
    ensures item.encoderProfile.Some? && item.encoderProfile.value.name != NO_REENCODING && item.media.duration == 0
      ==> item.newsize == old(item.newsize)
  {
    if item.encoderProfile == None {
      return;
    }
    var profile := item.encoderProfile.value;
    var media := item.media;
    if profile.name == NO_REENCODING {
      if item.about.hasCutlist && item.useCutlist {
        if media.duration == 0 {
          item.newsize := *;
        } else {
          item.newsize := ShareOf(item.about.size, media.duration, media.cutDuration);
        }
      } else {
        item.newsize := item.about.size;
      }
    } else {
      if media.duration == 0 {
        return;
      }
      var length := media.duration;
      if item.about.hasCutlist && item.useCutlist {
        length := media.cutDuration;
      }
      item.newsize := SizeAt(length, profile.bitrate);
    }
  }

  method ShareOf(size: int, duration: int, cutDuration: int) returns (share: int)
    requires duration != 0
    ensures share == CopiedSize(size, duration, cutDuration)
  {
    if cutDuration == 0 {
      return 0;
    }
    var ratio := duration as real / cutDuration as real;
    share := Trunc(size as real / ratio);
  }

  method SizeAt(length: int, bitrate: real) returns (size: int)
    ensures size == EncodedSize(length, bitrate)
  {
    var len := length as real / 3600.0;
    size := Trunc(len * bitrate * 1024.0 * 1024.0);
  }

  // ----- what the sizes mean -----------------------------------------------------------------

  lemma WholeProduct(a: int, b: int)
    ensures a as real * b as real == (a * b) as real
  {
  }

  lemma DivideByRatio(size: real, d: real, c: real, ratio: real, q: real)
    requires c > 0.0 && ratio == d / c && ratio != 0.0 && q == size / ratio
    ensures q * d == size * c
  {
    assert ratio * c == d;
    assert q * ratio == size;
    Reassociate(q, ratio, c);
  }

  lemma Reassociate(a: real, b: real, c: real)
    ensures a * (b * c) == (a * b) * c
  {
  }

  lemma PositiveQuotient(d: real, c: real)
    requires d > 0.0 && c > 0.0
    ensures d / c > 0.0
  {
    var ratio := d / c;
    assert ratio * c == d;
    NonNegativeQuotient(d, ratio, c);
  }

  lemma FloorBounds(q: real, d: int, product: int)
    requires d > 0 && product as real == q * d as real
    ensures q.Floor * d <= product < q.Floor * d + d
  {
    var n := q.Floor;
    ScaleBelow(product as real, q, n as real, d as real);
    ScaleAbove(product as real, q, n as real, d as real);
    WholeProduct(n, d);
  }

  /** A copied item keeps the share of its bytes that its cut duration is of its duration,
      rounded down to a whole byte. */
  lemma CopySizeIsShare(size: nat, duration: int, cutDuration: int)
    requires duration > 0 && cutDuration >= 0
    ensures var n := CopiedSize(size, duration, cutDuration);
      && n >= 0
      && n * duration <= size * cutDuration < n * duration + duration
  {
    if cutDuration > 0 {
      var d, c, product := duration as real, cutDuration as real, size * cutDuration;
      PositiveQuotient(d, c);
      var q := size as real / (d / c);
      DivideByRatio(size as real, d, c, d / c, q);
      WholeProduct(size, cutDuration);
      NonNegativeQuotient(product as real, q, d);
      FloorBounds(q, duration, product);
    }
  }

  lemma ScaledHour(s: real, x: real, b: real, q: real)
    requires x * 3600.0 == s && q == x * b * 1024.0 * 1024.0
    ensures q * 3600.0 == s * b * 1048576.0
  {
    var p := x * b;
    assert p * 3600.0 == s * b by {
      Reassociate(b, x, 3600.0);
    }
  }

  lemma EncodedSizeIs(seconds: nat, bitrate: real)
    requires bitrate >= 0.0
    ensures var n, product := EncodedSize(seconds, bitrate), seconds as real * bitrate * 1048576.0;
      n >= 0 && n as real * 3600.0 <= product && product < n as real * 3600.0 + 3600.0
  {
    var x := seconds as real / 3600.0;
    var q := x * bitrate * 1024.0 * 1024.0;
    ProductMonotone(0.0, x, bitrate);
    ScaledHour(seconds as real, x, bitrate, q);
    assert q >= 0.0;
    assert EncodedSize(seconds, bitrate) == Trunc(q) == q.Floor;
  }

  /** An item that is encoded gets the whole bytes that its duration, or the duration of what
      its cuts leave of it when they are used, takes at the megabytes an hour of its profile. */
  lemma EncodedItemSize(v: ItemValue, length: nat)
    requires v.profile.Some? && v.profile.value.name != "NONE" && v.profile.value.bitrate >= 0.0
    requires v.media.duration != 0
    requires length == if v.about.hasCutlist && v.useCutlist then v.media.cutDuration else v.media.duration
    ensures v.Resized() == v.(size := v.Resized().size) && v.Resized().size.Some?
    ensures var n, b := v.Resized().size.value, v.profile.value.bitrate;
      && n >= 0
      && n as real * 3600.0 <= length as real * b * 1048576.0
      && length as real * b * 1048576.0 < n as real * 3600.0 + 3600.0
  {
    EncodedSizeIs(length, v.profile.value.bitrate);
  }

  /** An item that is copied gets the size of its file, or the share of it that is left of its
      duration when its cuts are used, down to a whole byte; without a duration, that share is
      not defined. Where there is nothing to compute, an item keeps its size. */
  lemma CopiedItemSize(v: ItemValue)
    ensures v.Resized() == v.(size := v.Resized().size)
    ensures v.profile == None ==> v.Resized().size == v.size
    ensures v.profile.Some? && v.profile.value.name != "NONE" && v.media.duration == 0 ==>
      v.Resized().size == v.size
    ensures v.profile.Some? && v.profile.value.name == "NONE" ==>
      var n, using := v.Resized().size, v.about.hasCutlist && v.useCutlist;
      && (!using ==> n == Some(v.about.size))
      && (using && v.media.duration == 0 ==> n == None)
      && (using && v.media.duration > 0 && v.media.cutDuration >= 0 && v.about.size >= 0 ==>
            && n.Some? && n.value >= 0
            && n.value * v.media.duration <= v.about.size * v.media.cutDuration
            && v.about.size * v.media.cutDuration < n.value * v.media.duration + v.media.duration)
  {
    if v.UsingCuts() && v.media.duration > 0 && v.media.cutDuration >= 0 && v.about.size >= 0 {
      CopySizeIsShare(v.about.size, v.media.duration, v.media.cutDuration);
    }
  }

  lemma TruncMonotone(a: real, b: real)
    requires 0.0 <= a <= b
    ensures 0 <= Trunc(a) <= Trunc(b)
  {
  }

  lemma ProductMonotone(a: real, b: real, factor: real)
    requires 0.0 <= a <= b && factor >= 0.0
    ensures 0.0 <= a * factor <= b * factor
  {
  }

  lemma CancelFactor(a: int, b: int, d: int)
    requires d > 0 && a * d <= b * d
    ensures a <= b
  {
  }

  lemma Scaled(a: nat, b: int, c: int)
    requires b <= c
    ensures a * b <= a * c
  {
  }

  lemma CutsNeverEnlargeCopy(size: nat, duration: int, cutDuration: int)
    requires duration > 0 && 0 <= cutDuration <= duration
    ensures 0 <= CopiedSize(size, duration, cutDuration) <= size
  {
    var n := CopiedSize(size, duration, cutDuration);
    CopySizeIsShare(size, duration, cutDuration);
    Scaled(size, cutDuration, duration);
    CancelFactor(n, size, duration);
  }

  lemma EncodedSizeMonotone(a: int, b: int, bitrate: real)
    requires 0 <= a <= b && bitrate >= 0.0
    ensures 0 <= EncodedSize(a, bitrate) <= EncodedSize(b, bitrate)
  {
    var x, y := a as real / 3600.0, b as real / 3600.0;
    ProductMonotone(x, y, bitrate);
    TruncMonotone(x * bitrate * 1024.0 * 1024.0, y * bitrate * 1024.0 * 1024.0);
  }

  /** Cutting never makes an item larger. */
  lemma CutsNeverEnlarge(size: nat, media: Media, profile: EncoderProfile)
    requires media.duration > 0 && 0 <= media.cutDuration <= media.duration && profile.bitrate >= 0.0
    ensures 0 <= SizeFor(size, true, media, profile) <= SizeFor(size, false, media, profile)
  {
    if profile.name == NO_REENCODING {
      CutsNeverEnlargeCopy(size, media.duration, media.cutDuration);
    } else {
      EncodedSizeMonotone(media.cutDuration, media.duration, profile.bitrate);
    }
  }

  // ----- probing ---------------------------------------------------------------------------------

  /** What the probing helper leaves behind: nothing, a file without video, or everything. */
  datatype Probe = ProbeFailed
                 | NoVideo(fileCodec: string, duration: int, cutDuration: int)
                 | Probed(media: Media)

  function MediaAfter(media: Media, probe: Probe): Media {
    match probe
    case ProbeFailed => media
    case NoVideo(codec, duration, cutDuration) =>
      media.(fileCodec := codec, duration := duration, cutDuration := cutDuration)
    case Probed(found) => found
  }

  /** Probing an item again does not compute its size again: the size it had is still that of
      its profile exactly when it has no size by its new durations, or the same one. */
  lemma SizeSurvivesProbeIff(v: ItemValue, probe: Probe)
    requires v.SizeKnown() && v.Sizeable()
    ensures var w := v.(media := MediaAfter(v.media, probe));
      w.SizeKnown() <==>
        (w.Sizeable() ==> SizeFor(w.about.size, w.UsingCuts(), w.media, w.profile.value)
                          == SizeFor(v.about.size, v.UsingCuts(), v.media, v.profile.value))
  {
  }

  /** Finding the same durations again, or copying the whole file, keeps it right. */
  lemma SameDurationsKeepSize(v: ItemValue, probe: Probe)
    requires v.SizeKnown()
    requires var media := MediaAfter(v.media, probe);
      || (media.duration == v.media.duration && media.cutDuration == v.media.cutDuration)
      || (v.profile.Some? && v.profile.value.name == NO_REENCODING && !v.UsingCuts())
    ensures v.(media := MediaAfter(v.media, probe)).SizeKnown()
  {
  }

  method GetFileDetails(item: ArchiveItem, probe: Probe) returns (ok: bool)
    modifies item`media
    ensures item.media == MediaAfter(old(item.media), probe)
    ensures probe.ProbeFailed? ==> item.media == old(item.media)
    ensures probe.NoVideo? ==>
      && item.media.fileCodec == probe.fileCodec
      && item.media.duration == probe.duration && item.media.cutDuration == probe.cutDuration
      && item.media.videoCodec == old(item.media.videoCodec)
      && item.media.videoWidth == old(item.media.videoWidth)
      && item.media.videoHeight == old(item.media.videoHeight)
    ensures probe.Probed? ==> item.media == probe.media
    ensures ok == probe.Probed?
  {
    if probe.ProbeFailed? {
      return false;
    }
    if probe.NoVideo? {
      item.media := item.media.(fileCodec := probe.fileCodec);
      item.media := item.media.(duration := probe.duration);
      item.media := item.media.(cutDuration := probe.cutDuration);
      return false;
    }
    item.media := probe.media;
    return true;
  }
}
