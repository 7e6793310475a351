/** The burn screen: the archive list, the button list the user reorders, the sizes and the
    size bar derived from them, and the saved form of the list. */
module BurnList {
  import opened ArchiveItems
  import opened Selecting
  import opened TimeText

  const MEGABYTE := 1048576
  const UINT_RANGE := 0x1_0000_0000

  // ----- profiles -----------------------------------------------------------------------------

  function LowerCase(s: string): string {
    seq(|s|, i requires 0 <= i < |s| => if 'A' <= s[i] <= 'Z' then (s[i] as int + 32) as char else s[i])
  }

  /** The picture sizes a DVD can carry as they are. */
  predicate DvdResolution(width: int, height: int, ntsc: bool) {
    var full, half := if ntsc then 480 else 576, if ntsc then 240 else 288;
    (height == full && (width == 720 || width == 704 || width == 352)) || (width == 352 && height == half)
  }

  predicate NeedsNoEncoding(media: Media, ntsc: bool) {
    LowerCase(media.videoCodec) == "mpeg2video" && DvdResolution(media.videoWidth, media.videoHeight, ntsc)
  }

  /** One text is the other, apart from capitals in the place of small letters. */
  predicate ReadsAs(s: string, t: string) {
    |s| == |t| && forall i | 0 <= i < |s| :: s[i] == t[i] || ('A' <= s[i] <= 'Z' && s[i] as int + 32 == t[i] as int)
  }

  lemma LowerCaseReadsAs(s: string, t: string)
    requires forall i | 0 <= i < |t| :: !('A' <= t[i] <= 'Z')
    ensures LowerCase(s) == t <==> ReadsAs(s, t)
  {
    if ReadsAs(s, t) {
      assert LowerCase(s) == t;
    }
  }

  /** Where a name first occurs, or the length of the list. */
  function NamePosition(profiles: seq<EncoderProfile>, name: string): (k: nat)
    ensures k <= |profiles|
    ensures k < |profiles| ==> profiles[k].name == name
    ensures forall j | 0 <= j < k :: profiles[j].name != name
  {
    if |profiles| == 0 || profiles[0].name == name then 0 else 1 + NamePosition(profiles[1..], name)
  }

  function FirstNamed(profiles: seq<EncoderProfile>, name: string): Option<EncoderProfile> {
    var k := NamePosition(profiles, name);
    if k < |profiles| then Some(profiles[k]) else None
  }

  function LastNamed(profiles: seq<EncoderProfile>, name: string): (r: Option<EncoderProfile>)
    ensures r == None <==> forall i | 0 <= i < |profiles| :: profiles[i].name != name
    ensures r.Some? ==> r.value.name == name && r.value in profiles
  {
    if |profiles| == 0 then None
    else
      var last := profiles[|profiles| - 1];
      if last.name == name then Some(last) else LastNamed(profiles[..|profiles| - 1], name)
  }

  /** The last profile of a name. */
  predicate IsLast(profiles: seq<EncoderProfile>, name: string, p: EncoderProfile) {
    exists i | 0 <= i < |profiles| ::
      profiles[i] == p && p.name == name && forall j | i < j < |profiles| :: profiles[j].name != name
  }

  lemma {:induction false} LastNamedAt(profiles: seq<EncoderProfile>, name: string) returns (i: nat)
    requires LastNamed(profiles, name).Some?
    ensures i < |profiles| && profiles[i] == LastNamed(profiles, name).value
    ensures forall j | i < j < |profiles| :: profiles[j].name != name
  {
    i := |profiles| - 1;
    if profiles[i].name != name {
      i := LastNamedAt(profiles[..i], name);
    }
  }

  lemma LastNamedIsLast(profiles: seq<EncoderProfile>, name: string)
    ensures LastNamed(profiles, name).Some? ==> IsLast(profiles, name, LastNamed(profiles, name).value)
  {
    if LastNamed(profiles, name).Some? {
      var i := LastNamedAt(profiles, name);
    }
  }

  /** A profile comes back from its saved name exactly when it is listed before every other
      profile of that name. */
  lemma ProfileReadBackIff(profiles: seq<EncoderProfile>, p: EncoderProfile)
    ensures FirstNamed(profiles, p.name) == Some(p) <==>
      exists i | 0 <= i < |profiles| :: profiles[i] == p && forall j | 0 <= j < i :: profiles[j].name != p.name
  {
    var k := NamePosition(profiles, p.name);
    if i :| 0 <= i < |profiles| && profiles[i] == p && forall j | 0 <= j < i :: profiles[j].name != p.name {
      assert k == i;
    } else {
      assert k < |profiles| ==> profiles[k] != p;
    }
  }

  /** What the item table stores of an item. */
  datatype ItemRow = ItemRow(about: About, media: Media, profileName: string)

  /** The item table, in the order of its automatic numbering. */
  class ItemTable {
    var rows: seq<ItemRow>
  }

  // ----- sizes ---------------------------------------------------------------------------------

  ghost function Total(items: seq<ArchiveItem>): int
    reads items
  {
    if |items| == 0 then 0 else Total(items[..|items| - 1]) + items[|items| - 1].newsize
  }

  lemma OneMoreTotal(items: seq<ArchiveItem>, a: ArchiveItem)
    ensures Total(items + [a]) == Total(items) + a.newsize
  {
    assert (items + [a])[..|items|] == items;
  }

  /** One item's size and that of the others. */
  lemma {:induction false} TotalOfOthers(items: seq<ArchiveItem>, a: ArchiveItem)
    requires DistinctObjects(items)
    ensures Total(items) == Total(Without(items, [a])) + (if a in items then a.newsize else 0)
  {
    if |items| > 0 {
      var front, last := items[..|items| - 1], items[|items| - 1];
      assert items == front + [last];
      TotalOfOthers(front, a);
      OneMoreTotal(Without(front, [a]), last);
    }
  }

  /** Whole megabytes, as an unsigned machine word. */
  function Megabytes(size: int): int {
    TruncDiv(TruncDiv(size, 1024), 1024) % UINT_RANGE
  }

  lemma MegabytesOfRealisticSize(size: nat)
    requires size < MEGABYTE * UINT_RANGE
    ensures Megabytes(size) == size / MEGABYTE
  {
  }

  // ----- moving ----------------------------------------------------------------------------------

  datatype MoveKey = Up | Down | PutDown

  function Swapped<T>(s: seq<T>, i: nat, j: nat): seq<T>
    requires i < |s| && j < |s|
  {
    s[i := s[j]][j := s[i]]
  }

  /** The list with the entries at two places that follow each other in the other order. */
  function Exchanged<T>(s: seq<T>, i: nat): seq<T>
    requires i + 1 < |s|
  {
    s[..i] + [s[i + 1], s[i]] + s[i + 2..]
  }

  lemma SwappedIsExchanged<T>(s: seq<T>, i: nat)
    requires i + 1 < |s|
    ensures Swapped(s, i, i + 1) == Swapped(s, i + 1, i) == Exchanged(s, i)
  {
  }

  /** The place next to a place of a list, which at either end is that place itself. */
  function Neighbour(up: bool, i: nat, length: nat): nat {
    if up then (if i > 0 then i - 1 else 0) else if i + 1 < length then i + 1 else i
  }

  // ----- the screen ------------------------------------------------------------------------------

  /** The line the profile dialog stands on after some lines have been highlighted. */
  function DialogLine(start: nat, highlights: seq<nat>): nat {
    if |highlights| == 0 then start else highlights[|highlights| - 1]
  }

  datatype Setup = Setup(profiles: seq<EncoderProfile>, defaultProfile: string, ntsc: bool,
                         freeSpace: int, probes: map<string, Probe>)
  {
    /** The profile that copies an item comes first, and the default profile exists. */
    predicate Valid() {
      && |profiles| > 0
      && profiles[0].name == NO_REENCODING
      && NamePosition(profiles, defaultProfile) < |profiles|
    }

    /** A profile is always one of the list, when an item has one at all. */
    predicate Knows(profile: Option<EncoderProfile>) {
      profile.Some? ==> profile.value in profiles
    }

    function ProbeOf(filename: string): Probe {
      if filename in probes then probes[filename] else ProbeFailed
    }

    function DefaultFor(media: Media): Option<EncoderProfile>
      requires |profiles| > 0
    {
      if NeedsNoEncoding(media, ntsc) then Some(profiles[0]) else LastNamed(profiles, defaultProfile)
    }

    /** The first profile belongs to MPEG-2 video in one of the four sizes of the standard in use,
        and the last profile of the default name to everything else. */
    predicate ChosenFor(media: Media, profile: Option<EncoderProfile>)
      requires |profiles| > 0
    {
      var size := (media.videoWidth, media.videoHeight);
      var copied := ReadsAs(media.videoCodec, "mpeg2video")
        && size in (if ntsc then [(720, 480), (704, 480), (352, 480), (352, 240)]
                    else [(720, 576), (704, 576), (352, 576), (352, 288)]);
      if copied then profile == Some(profiles[0])
      else if profile.Some? then IsLast(profiles, defaultProfile, profile.value)
      else forall i | 0 <= i < |profiles| :: profiles[i].name != defaultProfile
    }

    lemma DefaultForChosen(media: Media)
      requires |profiles| > 0
      ensures ChosenFor(media, DefaultFor(media))
    {
      LowerCaseReadsAs(media.videoCodec, "mpeg2video");
      LastNamedIsLast(profiles, defaultProfile);
    }

    /** What refreshing the list finds out about an item: a file is probed while its duration is unknown. */
    function RefreshedMedia(about: About, media: Media): Media {
      if media.duration == 0 then MediaAfter(media, ProbeOf(about.filename)) else media
    }

    function RefreshedProfile(profile: Option<EncoderProfile>, media: Media): Option<EncoderProfile>
      requires |profiles| > 0
    {
      if profile == None then DefaultFor(media) else profile
    }

    function RefreshedValue(v: ItemValue): ItemValue
      requires |profiles| > 0
    {
      var media := RefreshedMedia(v.about, v.media);
      v.(media := media, profile := RefreshedProfile(v.profile, media)).Resized()
    }

    function RefreshedAll(values: seq<ItemValue>): (r: seq<ItemValue>)
      requires |profiles| > 0
      ensures |r| == |values| && forall i | 0 <= i < |r| :: r[i] == RefreshedValue(values[i])
    {
      if |values| == 0 then []
      else RefreshedAll(values[..|values| - 1]) + [RefreshedValue(values[|values| - 1])]
    }

    /** An item while the profile dialog is open on it: each change of line changes it. */
    function Browsed(v: ItemValue, highlights: seq<nat>): (r: ItemValue)
      requires v.profile.Some? && NamePosition(profiles, v.profile.value.name) < |profiles|
      requires forall k | 0 <= k < |highlights| :: highlights[k] < |profiles|
      ensures r.profile.Some?
    {
      var start := NamePosition(profiles, v.profile.value.name);
      if |highlights| == 0 then (if start != 0 then v.Chosen(profiles[start]) else v)
      else
        var front, line := highlights[..|highlights| - 1], highlights[|highlights| - 1];
        if line == DialogLine(start, front) then Browsed(v, front) else Browsed(v, front).Chosen(profiles[line])
    }

    /** An item after the whole dialog. */
    function Dialogued(v: ItemValue, highlights: seq<nat>, confirmed: bool): (r: ItemValue)
      requires v.profile.Some? && NamePosition(profiles, v.profile.value.name) < |profiles|
      requires forall k | 0 <= k < |highlights| :: highlights[k] < |profiles|
      ensures r.profile.Some?
    {
      var line := DialogLine(NamePosition(profiles, v.profile.value.name), highlights);
      if confirmed then Browsed(v, highlights).(profile := Some(profiles[line])) else Browsed(v, highlights)
    }
  }

  lemma BrowsedOneMore(setup: Setup, v: ItemValue, highlights: seq<nat>, k: nat, start: nat)
    requires v.profile.Some? && start == NamePosition(setup.profiles, v.profile.value.name) < |setup.profiles|
    requires k < |highlights| && forall j | 0 <= j < |highlights| :: highlights[j] < |setup.profiles|
    ensures setup.Browsed(v, highlights[..k + 1]) ==
      if highlights[k] == DialogLine(start, highlights[..k]) then setup.Browsed(v, highlights[..k])
      else setup.Browsed(v, highlights[..k]).Chosen(setup.profiles[highlights[k]])
  {
    assert highlights[..k + 1][..k] == highlights[..k];
  }

  // ----- lists of items as values ------------------------------------------------------------------

  ghost predicate AllShow(items: seq<ArchiveItem>, values: seq<ItemValue>)
    reads items
  {
    |items| == |values| && forall i | 0 <= i < |items| :: items[i].Shows(values[i])
  }

  ghost function ValuesOf(items: seq<ArchiveItem>): (r: seq<ItemValue>)
    reads items
    ensures |r| == |items| && forall i | 0 <= i < |r| :: r[i] == items[i].Value()
  {
    if |items| == 0 then [] else ValuesOf(items[..|items| - 1]) + [items[|items| - 1].Value()]
  }

  function AboutsOf(values: seq<ItemValue>): (r: seq<About>)
    ensures |r| == |values| && forall i | 0 <= i < |r| :: r[i] == values[i].about
  {
    if |values| == 0 then [] else AboutsOf(values[..|values| - 1]) + [values[|values| - 1].about]
  }

  function KeptValues(values: seq<ItemValue>, kind: string, selected: seq<Entry>): seq<ItemValue> {
    if |values| == 0 then []
    else
      var before, last := KeptValues(values[..|values| - 1], kind, selected), values[|values| - 1];
      if Keeps(kind, selected, last.about) then before + [last] else before
  }

  /** New items are not probed and have no profile, and their size is not set. */
  function NewValues(abouts: seq<About>): (r: seq<ItemValue>)
    ensures |r| == |abouts|
    ensures forall i | 0 <= i < |r| :: r[i] == ItemValue(abouts[i], UNPROBED, None, false, None)
  {
    if |abouts| == 0 then []
    else NewValues(abouts[..|abouts| - 1]) + [ItemValue(abouts[|abouts| - 1], UNPROBED, None, false, None)]
  }

  /** The list after a selector has been used on it. */
  function SelectedValues(values: seq<ItemValue>, kind: string, source: seq<Entry>, picks: seq<Entry>): seq<ItemValue> {
    var abouts := AboutsOf(values);
    var selected := Picked(Seeded(abouts, source), picks);
    KeptValues(values, kind, selected) + NewValues(Added(Kept(abouts, kind, selected), selected))
  }

  lemma {:induction false} KeptShow(items: seq<ArchiveItem>, values: seq<ItemValue>, kind: string, selected: seq<Entry>)
    requires AllShow(items, values)
    ensures AllShow(KeptObjects(items, kind, selected), KeptValues(values, kind, selected))
    ensures |KeptValues(values, kind, selected)| == |Kept(AboutsOf(values), kind, selected)|
  {
    if |items| > 0 {
      KeptShow(items[..|items| - 1], values[..|values| - 1], kind, selected);
      assert AboutsOf(values)[..|values| - 1] == AboutsOf(values[..|values| - 1]);
    }
  }

  lemma SelectedShow(items: seq<ArchiveItem>, kept: nat, values: seq<ItemValue>, added: seq<About>, abouts: seq<About>)
    requires kept == |values| == |abouts| && |items| == kept + |added|
    requires Abouts(items) == abouts + added && AllShow(items[..kept], values)
    requires forall i | kept <= i < |items| ::
      items[i].media == UNPROBED && items[i].encoderProfile == None && !items[i].useCutlist
    ensures AllShow(items, values + NewValues(added))
  {
    forall i | 0 <= i < |items|
      ensures items[i].Shows((values + NewValues(added))[i])
    {
      if i < kept {
        assert items[..kept][i] == items[i];
      } else {
        assert Abouts(items)[i] == added[i - kept];
      }
    }
  }

  /** Refreshed items show what refreshing makes of any values that they showed before. */
  lemma RefreshedShow(setup: Setup, items: seq<ArchiveItem>, was: seq<ItemValue>, values: seq<ItemValue>)
    requires |setup.profiles| > 0 && |items| == |was| == |values|
    requires forall i | 0 <= i < |items| ::
      items[i].Shows(setup.RefreshedValue(was[i])) && was[i].Covers(values[i])
    ensures AllShow(items, setup.RefreshedAll(values))
  {
    forall i | 0 <= i < |items|
      ensures items[i].Shows(setup.RefreshedValue(values[i]))
    {
      CoversRefreshed(setup, was[i], values[i]);
    }
  }

  lemma CoversRefreshed(setup: Setup, v: ItemValue, w: ItemValue)
    requires |setup.profiles| > 0 && v.Covers(w)
    ensures setup.RefreshedValue(v).Covers(setup.RefreshedValue(w))
  {
    var media := setup.RefreshedMedia(v.about, v.media);
    var profile := setup.RefreshedProfile(v.profile, media);
    CoversResized(v.(media := media, profile := profile), w.(media := media, profile := profile));
  }

  /** Refreshing probes an item of unknown duration and chooses a profile for one that has
      none; it changes nothing else but the size. */
  lemma RefreshedItem(setup: Setup, v: ItemValue)
    requires |setup.profiles| > 0
    ensures var r, name := setup.RefreshedValue(v), v.about.filename;
      && r == v.(media := r.media, profile := r.profile, size := r.size)
      && r.size == v.(media := r.media, profile := r.profile).Resized().size
      && (v.media.duration != 0 || name !in setup.probes || setup.probes[name].ProbeFailed? ==> r.media == v.media)
      && (v.media.duration == 0 && name in setup.probes && setup.probes[name].Probed? ==>
            r.media == setup.probes[name].media)
      && (v.media.duration == 0 && name in setup.probes && setup.probes[name].NoVideo? ==>
            && r.media.duration == setup.probes[name].duration
            && r.media.cutDuration == setup.probes[name].cutDuration
            && r.media.videoCodec == v.media.videoCodec)
      && (if v.profile.Some? then r.profile == v.profile else setup.ChosenFor(r.media, r.profile))
  {
    setup.DefaultForChosen(setup.RefreshedMedia(v.about, v.media));
  }

  /** The dialog leaves the profile of the line last highlighted, by its name, or the item's own. */
  lemma {:induction false} DialogProfile(setup: Setup, v: ItemValue, highlights: seq<nat>, confirmed: bool)
    requires v.profile.Some? && NamePosition(setup.profiles, v.profile.value.name) < |setup.profiles|
    requires forall k | 0 <= k < |highlights| :: highlights[k] < |setup.profiles|
    ensures var r := setup.Dialogued(v, highlights, confirmed);
      && r == v.(profile := r.profile, size := r.size)
      && r.profile.value.name ==
           (if |highlights| == 0 then v.profile.value.name else setup.profiles[highlights[|highlights| - 1]].name)
      && (confirmed && |highlights| > 0 ==> r.profile.value == setup.profiles[highlights[|highlights| - 1]])
  {
    if |highlights| > 0 {
      DialogProfile(setup, v, highlights[..|highlights| - 1], false);
    }
  }

  // ----- the size that a profile dialog leaves ---------------------------------------------------

  predicate DialogOn(setup: Setup, v: ItemValue, highlights: seq<nat>) {
    && setup.Valid() && v.SizeKnown()
    && v.profile.Some? && NamePosition(setup.profiles, v.profile.value.name) < |setup.profiles|
    && forall k | 0 <= k < |highlights| :: highlights[k] < |setup.profiles|
  }

  /** With a duration, an item has the size for the last line of the dialog. */
  lemma {:induction false} BrowsedSize(setup: Setup, v: ItemValue, highlights: seq<nat>)
    requires DialogOn(setup, v, highlights) && v.media.duration != 0
    ensures var r := setup.Browsed(v, highlights);
      var line := DialogLine(NamePosition(setup.profiles, v.profile.value.name), highlights);
      && r == v.(profile := r.profile, size := r.size)
      && r.size == Some(SizeFor(v.about.size, v.UsingCuts(), v.media, setup.profiles[line]))
  {
    if |highlights| > 0 {
      BrowsedSize(setup, v, highlights[..|highlights| - 1]);
    }
  }

  lemma DialogSize(setup: Setup, v: ItemValue, highlights: seq<nat>, confirmed: bool)
    requires DialogOn(setup, v, highlights) && v.media.duration != 0
    ensures var line := DialogLine(NamePosition(setup.profiles, v.profile.value.name), highlights);
      setup.Dialogued(v, highlights, confirmed).size
      == Some(SizeFor(v.about.size, v.UsingCuts(), v.media, setup.profiles[line]))
  {
    BrowsedSize(setup, v, highlights);
  }

  /** Some line of the dialog, the one it opens on included, copies the item. */
  predicate CopyingSeen(setup: Setup, v: ItemValue, highlights: seq<nat>)
    requires DialogOn(setup, v, highlights)
  {
    || v.profile.value.name == NO_REENCODING
    || exists k | 0 <= k < |highlights| :: setup.profiles[highlights[k]].name == NO_REENCODING
  }

  /** Without a duration and without cuts in use, an item has its file's size as soon as a line
      of the dialog copies it, and keeps the size it had until then. */
  lemma {:induction false} BrowsedSizeWithoutDuration(setup: Setup, v: ItemValue, highlights: seq<nat>)
    requires DialogOn(setup, v, highlights) && v.media.duration == 0 && !v.UsingCuts()
    ensures var r := setup.Browsed(v, highlights);
      && r == v.(profile := r.profile, size := r.size)
      && r.size == if CopyingSeen(setup, v, highlights) then Some(v.about.size) else v.size
  {
    if |highlights| > 0 {
      var front := highlights[..|highlights| - 1];
      BrowsedSizeWithoutDuration(setup, v, front);
      var line := DialogLine(NamePosition(setup.profiles, v.profile.value.name), front);
      assert CopyingSeen(setup, v, highlights) <==>
        CopyingSeen(setup, v, front) || setup.profiles[highlights[|highlights| - 1]].name == NO_REENCODING;
      assert setup.profiles[line].name == NO_REENCODING ==> CopyingSeen(setup, v, front) by {
        assert |front| > 0 ==> line == front[|front| - 1];
      }
    }
  }

  /** An item that has the size of its profile when the dialog opens has it when it is over. */
  lemma DialoguedSizeKnown(setup: Setup, v: ItemValue, highlights: seq<nat>, confirmed: bool)
    requires DialogOn(setup, v, highlights)
    ensures setup.Dialogued(v, highlights, confirmed).SizeKnown()
    ensures var r := setup.Dialogued(v, highlights, confirmed);
      r == v.(profile := r.profile, size := r.size)
  {
    BrowsedSizeKnown(setup, v, highlights);
  }

  lemma {:induction false} BrowsedSizeKnown(setup: Setup, v: ItemValue, highlights: seq<nat>)
    requires DialogOn(setup, v, highlights)
    ensures var r, line := setup.Browsed(v, highlights),
        DialogLine(NamePosition(setup.profiles, v.profile.value.name), highlights);
      && r.SizeKnown() && r.(profile := Some(setup.profiles[line])).SizeKnown()
      && r == v.(profile := r.profile, size := r.size)
  {
    if |highlights| > 0 {
      BrowsedSizeKnown(setup, v, highlights[..|highlights| - 1]);
    }
  }

  /** Without a duration but with cuts in use, it keeps its size unless a line copies it, which
      leaves it undefined. */
  lemma {:induction false} BrowsedSizeOfCuts(setup: Setup, v: ItemValue, highlights: seq<nat>)
    requires DialogOn(setup, v, highlights) && v.media.duration == 0 && v.UsingCuts()
    requires v.profile.value.name != NO_REENCODING
    ensures var r := setup.Browsed(v, highlights);
      && r == v.(profile := r.profile, size := r.size)
      && r.size == if CopyingSeen(setup, v, highlights) then None else v.size
  {
    if |highlights| > 0 {
      var front := highlights[..|highlights| - 1];
      BrowsedSizeOfCuts(setup, v, front);
      var line := DialogLine(NamePosition(setup.profiles, v.profile.value.name), front);
      assert CopyingSeen(setup, v, highlights) <==>
        CopyingSeen(setup, v, front) || setup.profiles[highlights[|highlights| - 1]].name == NO_REENCODING;
      assert setup.profiles[line].name == NO_REENCODING ==> CopyingSeen(setup, v, front) by {
        assert |front| > 0 ==> line == front[|front| - 1];
      }
    }
  }

  class MythBurn {
    const setup: Setup
    const archive: ItemList
    var buttons: seq<ArchiveItem>
    var cursor: nat
    var moveMode: bool
    var usedSpace: int
    var overfull: bool
    /** The sum of the sizes when the size bar was last drawn. */
    ghost var drawn: int

    constructor (setup: Setup, archive: ItemList)
      ensures this.setup == setup && this.archive == archive && !moveMode && buttons == [] && drawn == 0
    {
      this.setup, this.archive := setup, archive;
      buttons, cursor, moveMode, usedSpace, overfull, drawn := [], 0, false, 0, false, 0;
    }

    ghost predicate WellListed()
      reads archive, archive.items
    {
      && setup.Valid()
      && DistinctObjects(archive.items)
      && forall i | 0 <= i < |archive.items| :: setup.Knows(archive.items[i].encoderProfile)
    }

    /** Every item has a profile, and the size that it and the use of the cut list give it. */
    ghost predicate ItemsCurrent()
      reads archive, archive.items
    {
      WellListed() && forall a | a in archive.items :: a.encoderProfile.Some? && a.SizeIsCurrent()
    }

    /** The buttons show the items of the archive list, in any order. */
    ghost predicate ButtonsMatch()
      reads this`buttons, this`cursor, archive
    {
      && multiset(buttons) == multiset(archive.items)
      && (if |buttons| == 0 then cursor == 0 else cursor < |buttons|)
    }

    ghost predicate ListsAgree()
      reads this`buttons, this`cursor, archive, archive.items
    {
      ItemsCurrent() && ButtonsMatch()
    }

    /** The size bar shows the sum of the item sizes, and warns when it is more than fits. */
    ghost predicate BarMatches()
      reads this`usedSpace, this`overfull, archive, archive.items
    {
      usedSpace == Megabytes(Total(archive.items)) && overfull == (usedSpace > TruncDiv(setup.freeSpace, 1024))
    }

    /** The size bar as it was last drawn. */
    ghost predicate BarDrawn()
      reads this`usedSpace, this`overfull, this`drawn
    {
      usedSpace == Megabytes(drawn) && overfull == (usedSpace > TruncDiv(setup.freeSpace, 1024))
    }

    /** The size bar was drawn for the items as they are. */
    ghost predicate BarFresh()
      reads this`usedSpace, this`overfull, this`drawn, archive, archive.items
    {
      BarDrawn() && drawn == Total(archive.items)
    }

    /** The size bar is right exactly when the sum has the same megabytes as when it was drawn. */
    lemma BarMatchesIff()
      requires BarDrawn()
      ensures BarMatches() <==> Megabytes(Total(archive.items)) == Megabytes(drawn)
    {
    }

    /** Below four petabytes the bar shows the whole megabytes of the sum, and warns when they
        are more kilobytes than there are free. */
    lemma BarReads()
      requires BarMatches() && 0 <= Total(archive.items) < MEGABYTE * UINT_RANGE && setup.freeSpace >= 0
      ensures usedSpace * 1048576 <= Total(archive.items) < usedSpace * 1048576 + 1048576
      ensures overfull <==> usedSpace * 1024 > setup.freeSpace
    {
      MegabytesOfRealisticSize(Total(archive.items));
    }

    ghost predicate Consistent()
      reads this, archive, archive.items
    {
      ListsAgree() && BarMatches()
    }

    method UpdateSizeBar()
      modifies this`usedSpace, this`overfull, this`drawn
      ensures BarFresh()
    {
      var size := 0;
      for x := 0 to |archive.items|
        invariant size == Total(archive.items[..x])
      {
        size := size + archive.items[x].newsize;
        assert archive.items[..x + 1][..x] == archive.items[..x];
      }
      assert archive.items[..|archive.items|] == archive.items;
      usedSpace := TruncDiv(TruncDiv(size, 1024), 1024) % UINT_RANGE;
      overfull := usedSpace > TruncDiv(setup.freeSpace, 1024);
      drawn := size;
    }

    /** The first profile when the file can go on a DVD as it is; otherwise the last one with
        the default name. */
    method GetDefaultProfile(media: Media) returns (profile: Option<EncoderProfile>)
      requires |setup.profiles| > 0
      ensures profile == setup.DefaultFor(media)
      ensures setup.ChosenFor(media, profile)
    {
      profile := None;
      if NeedsNoEncoding(media, setup.ntsc) {
        profile := Some(setup.profiles[0]);
      }
      if profile == None {
        profile := LastOfName(setup.defaultProfile);
      }
      setup.DefaultForChosen(media);
    }

    method LastOfName(name: string) returns (profile: Option<EncoderProfile>)
      ensures profile == LastNamed(setup.profiles, name)
    {
      profile := None;
      var x := 0;
      while x < |setup.profiles|
        invariant 0 <= x <= |setup.profiles|
        invariant profile == LastNamed(setup.profiles[..x], name)
      {
        if setup.profiles[x].name == name {
          profile := Some(setup.profiles[x]);
        }
        assert setup.profiles[..x + 1][..x] == setup.profiles[..x];
        x := x + 1;
      }
      assert setup.profiles[..|setup.profiles|] == setup.profiles;
    }

    method GetProfileFromName(name: string) returns (profile: Option<EncoderProfile>)
      ensures profile == FirstNamed(setup.profiles, name)
    {
      for x := 0 to |setup.profiles|
        invariant forall j | 0 <= j < x :: setup.profiles[j].name != name
      {
        if setup.profiles[x].name == name {
          assert NamePosition(setup.profiles, name) == x;
          return Some(setup.profiles[x]);
        }
      }
      return None;
    }

    /** Brings one item up to date: probe it if need be, choose a profile if it has none. */
    method RefreshItem(a: ArchiveItem)
      requires setup.Valid() && setup.Knows(a.encoderProfile)
      modifies a`media, a`encoderProfile, a`newsize
      ensures a.media == setup.RefreshedMedia(a.about, old(a.media))
      ensures a.encoderProfile == setup.RefreshedProfile(old(a.encoderProfile), a.media)
      ensures a.encoderProfile.Some? && setup.Knows(a.encoderProfile) && a.SizeIsCurrent()
      ensures a.Shows(setup.RefreshedValue(old(a.Value())))
    {
      if a.media.duration == 0 {
        var _ := GetFileDetails(a, setup.ProbeOf(a.about.filename));
      }
      if a.encoderProfile == None {
        a.encoderProfile := GetDefaultProfile(a.media);
      }
      RecalcItemSize(a);
    }

    /** Refreshing leaves everything else about an item alone. */
    twostate predicate Refreshed(a: ArchiveItem)
      requires |setup.profiles| > 0
      reads a
    {
      && a.about == old(a.about) && a.useCutlist == old(a.useCutlist)
      && a.editedDetails == old(a.editedDetails) && a.thumbList == old(a.thumbList)
      && a.media == setup.RefreshedMedia(a.about, old(a.media))
      && a.encoderProfile == setup.RefreshedProfile(old(a.encoderProfile), a.media)
      && a.Shows(setup.RefreshedValue(old(a.Value())))
    }

    method RefreshItems()
      requires WellListed()
      modifies this`buttons, this`cursor, archive.items
      ensures buttons == archive.items && cursor == 0
      ensures forall i | 0 <= i < |archive.items| ::
        && Refreshed(archive.items[i])
        && archive.items[i].encoderProfile.Some? && setup.Knows(archive.items[i].encoderProfile)
        && archive.items[i].SizeIsCurrent()
    {
      buttons := [];
      cursor := 0;
      for x := 0 to |archive.items|
        invariant buttons == archive.items[..x] && cursor == 0
        invariant forall i | x <= i < |archive.items| :: unchanged(archive.items[i])
        invariant forall i | 0 <= i < x ::
          && Refreshed(archive.items[i])
          && archive.items[i].encoderProfile.Some? && setup.Knows(archive.items[i].encoderProfile)
          && archive.items[i].SizeIsCurrent()
      {
        RefreshItem(archive.items[x]);
        buttons := buttons + [archive.items[x]];
      }
      assert archive.items[..|archive.items|] == archive.items;
    }

    /** Rebuilds the button list in the order of the archive list, dropping any order the
        user had given it. */
    method UpdateArchiveList()
      requires WellListed()
      modifies this`buttons, this`cursor, this`usedSpace, this`overfull, this`drawn, archive.items
      ensures Consistent() && BarFresh() && buttons == archive.items && cursor == 0
      ensures forall i | 0 <= i < |archive.items| :: Refreshed(archive.items[i])
    {
      RefreshItems();
      UpdateSizeBar();
    }

    function Current(): ArchiveItem
      reads this
      requires cursor < |buttons|
    {
      buttons[cursor]
    }

    /** The program takes the current item for granted: it dereferences it unchecked. */
    method ToggleUseCutlist(ghost v: ItemValue)
      requires ListsAgree() && cursor < |buttons| && Current().Shows(v)
      modifies this`usedSpace, this`overfull, this`drawn, Current()`useCutlist, Current()`newsize
      ensures ListsAgree()
      ensures Current().about.hasCutlist ==> BarFresh()
      ensures !Current().about.hasCutlist ==>
        && usedSpace == old(usedSpace) && overfull == old(overfull) && drawn == old(drawn)
        && Total(archive.items) == old(Total(archive.items))
      ensures Current().useCutlist == (old(Current().useCutlist) != Current().about.hasCutlist)
      ensures Current().Shows(v.CutToggled())
    {
      var a := buttons[cursor];
      InBoth(a);
      if !a.about.hasCutlist {
        return;
      }
      a.useCutlist := !a.useCutlist;
      CoversResized(a.Value(), v.(useCutlist := !v.useCutlist));
      RecalcItemSize(a);
      UpdateSizeBar();
    }

    lemma InBoth(a: ArchiveItem)
      requires multiset(buttons) == multiset(archive.items) && a in buttons
      ensures a in archive.items
    {
      assert a in multiset(buttons);
    }

    method RemoveItem(ghost values: seq<ItemValue>, ghost i: nat)
      requires ListsAgree() && cursor < |buttons|
      requires AllShow(archive.items, values) && i < |archive.items| && archive.items[i] == Current()
      modifies this`buttons, this`cursor, this`usedSpace, this`overfull, this`drawn, archive, archive.items
      ensures Consistent() && BarFresh() && buttons == archive.items && cursor == 0
      ensures archive.items == old(archive.items)[..i] + old(archive.items)[i + 1..]
      ensures forall i | 0 <= i < |archive.items| ::
        archive.items[i] in old(archive.items) && Refreshed(archive.items[i])
      ensures AllShow(archive.items, setup.RefreshedAll(values[..i] + values[i + 1..]))
    {
      TakeOut(values, i);
      RefreshList(values[..i] + values[i + 1..]);
    }

    method TakeOut(ghost values: seq<ItemValue>, ghost i: nat)
      requires WellListed() && cursor < |buttons|
      requires AllShow(archive.items, values) && i < |archive.items| && archive.items[i] == Current()
      modifies archive
      ensures WellListed()
      ensures archive.items == old(archive.items)[..i] + old(archive.items)[i + 1..]
      ensures forall i | 0 <= i < |archive.items| :: archive.items[i] in old(archive.items)
      ensures AllShow(archive.items, values[..i] + values[i + 1..])
    {
      WithoutOne(archive.items, i);
      archive.items := Without(archive.items, [buttons[cursor]]);
    }

    /** Refreshing a list that shows some values. */
    method RefreshList(ghost values: seq<ItemValue>)
      requires WellListed() && AllShow(archive.items, values)
      modifies this`buttons, this`cursor, this`usedSpace, this`overfull, this`drawn, archive.items
      ensures Consistent() && BarFresh() && buttons == archive.items && cursor == 0
      ensures forall i | 0 <= i < |archive.items| :: Refreshed(archive.items[i])
      ensures AllShow(archive.items, setup.RefreshedAll(values))
    {
      ghost var was := ValuesOf(archive.items);
      UpdateArchiveList();
      RefreshedShow(setup, archive.items, was, values);
    }

    /** Takes the current item out and puts it back one place before or after. */
    method MoveTo(insertat: nat)
      requires ButtonsMatch() && insertat < |buttons| && (insertat == cursor + 1 || cursor == insertat + 1)
      modifies this`buttons, this`cursor
      ensures ButtonsMatch() && cursor == insertat
      ensures buttons == Swapped(old(buttons), old(cursor), insertat)
    {
      var oldpos := cursor;
      var item := buttons[oldpos];
      var rest := buttons[..oldpos] + buttons[oldpos + 1..];
      MovingIsSwapping(buttons, oldpos, insertat);
      buttons := rest[..insertat] + [item] + rest[insertat..];
      cursor := insertat;
    }

    /** Swaps the current item with its neighbour and stays on it; there is nowhere to go
        past either end. */
    method MoveUpDown(up: bool)
      requires ButtonsMatch() && cursor < |buttons|
      modifies this`buttons, this`cursor
      ensures ButtonsMatch()
      ensures cursor == Neighbour(up, old(cursor), |buttons|)
      ensures buttons == Swapped(old(buttons), old(cursor), cursor)
      ensures up && old(cursor) > 0 ==>
        cursor == old(cursor) - 1 && buttons == Exchanged(old(buttons), cursor)
      ensures !up && old(cursor) + 1 < |buttons| ==>
        cursor == old(cursor) + 1 && buttons == Exchanged(old(buttons), old(cursor))
      ensures (if up then old(cursor) == 0 else old(cursor) + 1 == |buttons|) ==>
        cursor == old(cursor) && buttons == old(buttons)
    {
      if up && cursor > 0 {
        SwappedIsExchanged(buttons, cursor - 1);
        MoveTo(cursor - 1);
      } else if !up && cursor + 1 < |buttons| {
        SwappedIsExchanged(buttons, cursor);
        MoveTo(cursor + 1);
      }
    }

    /** Selecting a profile in the dialog changes the item at once, but not the size bar. */
    method HighlightProfile(a: ArchiveItem, n: nat, ghost v: ItemValue)
      requires ListsAgree() && a in archive.items && n < |setup.profiles| && a.Shows(v)
      modifies a`encoderProfile, a`newsize
      ensures ListsAgree() && a.encoderProfile == Some(setup.profiles[n])
      ensures a.Shows(v.Chosen(setup.profiles[n]))
    {
      a.encoderProfile := Some(setup.profiles[n]);
      CoversResized(a.Value(), v.(profile := Some(setup.profiles[n])));
      RecalcItemSize(a);
    }

    /** Confirming the dialog sets the profile again, without recomputing the size: right
        for a line that is highlighted already, or for one copying profile in place of another. */
    method ProfileChanged(n: nat)
      requires ListsAgree() && cursor < |buttons| && Current().encoderProfile.Some?
      modifies this`usedSpace, this`overfull, this`drawn, Current()`encoderProfile
      ensures n < |setup.profiles| ==> BarFresh() && Current().encoderProfile == Some(setup.profiles[n])
      ensures n < |setup.profiles| ==>
        Current().Value() == old(Current().Value()).(profile := Some(setup.profiles[n]))
      ensures n < |setup.profiles|
        && (old(Current().encoderProfile) == Some(setup.profiles[n])
            || old(Current().encoderProfile.value.name) == setup.profiles[n].name == NO_REENCODING)
        ==> ListsAgree()
      ensures n >= |setup.profiles| ==>
        usedSpace == old(usedSpace) && overfull == old(overfull) && drawn == old(drawn)
        && Current().encoderProfile == old(Current().encoderProfile)
    {
      if n >= |setup.profiles| {
        return;
      }
      var a := buttons[cursor];
      InBoth(a);
      ghost var sameSize := a.encoderProfile == Some(setup.profiles[n])
        || a.encoderProfile.value.name == setup.profiles[n].name == NO_REENCODING;
      a.encoderProfile := Some(setup.profiles[n]);
      UpdateSizeBar();
      assert sameSize ==> a.SizeIsCurrent();
    }

    /** The whole profile dialog. It opens on the first profile with the name of the item's
        own, and each change of line already changes the item. Confirmed, it leaves everything
        consistent; abandoned, it leaves the item changed and the bar as it was, which is then
        right exactly when the change makes no difference in megabytes. */
    method ChangeProfile(highlights: seq<nat>, confirmed: bool, ghost v: ItemValue)
      requires ListsAgree() && cursor < |buttons| && Current().Shows(v)
      requires Current().encoderProfile.Some?
      requires forall k | 0 <= k < |highlights| :: highlights[k] < |setup.profiles|
      modifies this`usedSpace, this`overfull, this`drawn, Current()`encoderProfile, Current()`newsize
      ensures ListsAgree()
      ensures confirmed ==> BarFresh()
      ensures !confirmed ==>
        && usedSpace == old(usedSpace) && overfull == old(overfull) && drawn == old(drawn)
        && Total(archive.items) == old(Total(archive.items)) - old(Current().newsize) + Current().newsize
      ensures InProfiles(old(Current().encoderProfile)) &&
        Current().Shows(setup.Dialogued(v, highlights, confirmed))
      ensures var after := setup.Dialogued(v, highlights, confirmed).size;
        !confirmed && old(BarMatches()) && after.Some? ==>
        (BarMatches() <==>
          Megabytes(old(Total(archive.items)) - old(Current().newsize) + after.value)
          == Megabytes(old(Total(archive.items))))
      ensures var start := NamePosition(setup.profiles, old(Current().encoderProfile.value.name));
        var line := DialogLine(start, highlights);
        && line < |setup.profiles|
        && Current().encoderProfile.Some?
        && (confirmed || start != 0 || line != 0 ==> Current().encoderProfile == Some(setup.profiles[line]))
        && Current().encoderProfile.value.name == setup.profiles[line].name
    {
      var line := UseDialog(highlights, v);
      if confirmed {
        ProfileChanged(line);
      }
    }

    /** The dialog on the current item, up to where it is confirmed or abandoned. */
    method UseDialog(highlights: seq<nat>, ghost v: ItemValue) returns (line: nat)
      requires ListsAgree() && cursor < |buttons| && Current().Shows(v)
      requires Current().encoderProfile.Some?
      requires forall k | 0 <= k < |highlights| :: highlights[k] < |setup.profiles|
      modifies Current()`encoderProfile, Current()`newsize
      ensures ListsAgree() && InProfiles(old(Current().encoderProfile))
      ensures Total(archive.items) == old(Total(archive.items)) - old(Current().newsize) + Current().newsize
      ensures Current().Shows(setup.Browsed(v, highlights))
      ensures var start := NamePosition(setup.profiles, old(Current().encoderProfile.value.name));
        && line == DialogLine(start, highlights) < |setup.profiles|
        && Current().encoderProfile.Some? && Current().encoderProfile.value.name == setup.profiles[line].name
        && (start != 0 || line != 0 ==> Current().encoderProfile == Some(setup.profiles[line]))
    {
      var a := buttons[cursor];
      InBoth(a);
      ghost var others := Without(archive.items, [a]);
      ghost var sum := Total(others);
      TotalOfOthers(archive.items, a);
      WithoutMembers(archive.items, [a], a);
      line := BrowseProfiles(a, highlights, v);
      assert Total(others) == sum;
      TotalOfOthers(archive.items, a);
    }

    predicate InProfiles(profile: Option<EncoderProfile>) {
      profile.Some? && NamePosition(setup.profiles, profile.value.name) < |setup.profiles|
    }

    /** The dialog while it is open. */
    method BrowseProfiles(a: ArchiveItem, highlights: seq<nat>, ghost v: ItemValue) returns (line: nat)
      requires ListsAgree() && a in archive.items && a.encoderProfile.Some? && a.Shows(v)
      requires forall k | 0 <= k < |highlights| :: highlights[k] < |setup.profiles|
      modifies a`encoderProfile, a`newsize
      ensures ListsAgree()
      ensures var start := NamePosition(setup.profiles, old(a.encoderProfile.value.name));
        && start < |setup.profiles|
        && line == DialogLine(start, highlights) < |setup.profiles|
        && a.encoderProfile.Some? && a.encoderProfile.value.name == setup.profiles[line].name
        && (start != 0 || line != 0 ==> a.encoderProfile == Some(setup.profiles[line]))
        && a.Shows(setup.Browsed(v, highlights))
    {
      line := NamePosition(setup.profiles, a.encoderProfile.value.name);
      ghost var start := line;
      if line != 0 {
        HighlightProfile(a, line, v);
      }
      for k := 0 to |highlights|
        invariant ListsAgree() && line < |setup.profiles| && line == DialogLine(start, highlights[..k])
        invariant start != 0 || line != 0 ==> a.encoderProfile == Some(setup.profiles[line])
        invariant a.encoderProfile.Some? && a.encoderProfile.value.name == setup.profiles[line].name
        invariant a.Shows(setup.Browsed(v, highlights[..k]))
      {
        BrowsedOneMore(setup, v, highlights, k, start);
        if highlights[k] != line {
          line := highlights[k];
          HighlightProfile(a, line, setup.Browsed(v, highlights[..k]));
        }
      }
      assert highlights[..|highlights|] == highlights;
    }

    /** The list's own keys put the cursor on another item. */
    method Highlight(n: nat)
      requires ButtonsMatch() && n < |buttons|
      modifies this`cursor
      ensures ButtonsMatch() && cursor == n
    {
      cursor := n;
    }

    /** While an item is being moved the keys only move it or put it down. */
    method MoveKey(key: MoveKey)
      requires ButtonsMatch() && moveMode
      modifies this`moveMode, this`buttons, this`cursor
      ensures ButtonsMatch()
      ensures |buttons| == 0 || key != PutDown ==> moveMode
      ensures |buttons| > 0 && key == PutDown ==> !moveMode
      ensures |buttons| == 0 || key == PutDown ==> buttons == old(buttons) && cursor == old(cursor)
      ensures key == Up && 0 < old(cursor) ==>
        cursor == old(cursor) - 1 && buttons == Exchanged(old(buttons), cursor)
      ensures key == Down && old(cursor) + 1 < |buttons| ==>
        cursor == old(cursor) + 1 && buttons == Exchanged(old(buttons), old(cursor))
      ensures |buttons| > 0 && key != PutDown ==>
        && cursor == Neighbour(key == Up, old(cursor), |buttons|)
        && buttons == Swapped(old(buttons), old(cursor), cursor)
    {
      if |buttons| == 0 {
        return;
      }
      match key
      case PutDown => moveMode := false;
      case Up => MoveUpDown(true);
      case Down => MoveUpDown(false);
    }

    method ItemClicked()
      modifies this`moveMode
      ensures moveMode == !old(moveMode)
    {
      moveMode := !moveMode;
    }

    method SelectorClosed(ok: bool, ghost values: seq<ItemValue>)
      requires WellListed() && AllShow(archive.items, values)
      modifies this`buttons, this`cursor, this`usedSpace, this`overfull, this`drawn, archive.items
      ensures ok ==> Consistent() && BarFresh() && buttons == archive.items && cursor == 0
      ensures ok ==> forall i | 0 <= i < |archive.items| :: Refreshed(archive.items[i])
      ensures ok ==> AllShow(archive.items, setup.RefreshedAll(values))
      ensures Abouts(archive.items) == old(Abouts(archive.items))
      ensures !ok ==> buttons == old(buttons) && cursor == old(cursor)
    {
      if ok {
        RefreshList(values);
      }
    }

    /** A selector is opened on the shared list, some entries are picked, and it is confirmed. */
    method AddItems(kind: string, source: seq<Entry>, picks: seq<Entry>, ghost values: seq<ItemValue>)
      requires WellListed() && AllShow(archive.items, values)
      modifies this`buttons, this`cursor, this`usedSpace, this`overfull, this`drawn, archive, archive.items
      ensures Consistent() && BarFresh() && buttons == archive.items && cursor == 0
      ensures forall i | 0 <= i < |archive.items| :: archive.items[i] in old(archive.items) || fresh(archive.items[i])
      ensures var abouts := old(Abouts(archive.items));
        Abouts(archive.items) == Reconciled(abouts, kind, Picked(Seeded(abouts, source), picks))
      ensures AllShow(archive.items, setup.RefreshedAll(SelectedValues(values, kind, source, picks)))
    {
      ChooseItems(kind, source, picks, values);
      SelectorClosed(true, SelectedValues(values, kind, source, picks));
    }

    method ChooseItems(kind: string, source: seq<Entry>, picks: seq<Entry>, ghost values: seq<ItemValue>)
      requires WellListed() && AllShow(archive.items, values)
      modifies archive
      ensures WellListed()
      ensures forall i | 0 <= i < |archive.items| :: archive.items[i] in old(archive.items) || fresh(archive.items[i])
      ensures var abouts := old(Abouts(archive.items));
        Abouts(archive.items) == Reconciled(abouts, kind, Picked(Seeded(abouts, source), picks))
      ensures AllShow(archive.items, SelectedValues(values, kind, source, picks))
    {
      ghost var abouts := Abouts(archive.items);
      assert abouts == AboutsOf(values);
      ghost var selected := Picked(Seeded(abouts, source), picks);
      ghost var kept := KeptObjects(archive.items, kind, selected);
      KeptShow(archive.items, values, kind, selected);
      UseSelector(kind, archive, source, picks);
      assert archive.items[..|kept|] == kept;
      SelectedShow(archive.items, |kept|, KeptValues(values, kind, selected),
                   Added(Kept(abouts, kind, selected), selected), Kept(abouts, kind, selected));
    }

    // ----- the saved form ------------------------------------------------------------------------

    ghost function RowsOf(items: seq<ArchiveItem>): seq<ItemRow>
      requires forall i | 0 <= i < |items| :: items[i].encoderProfile.Some?
      reads items
    {
      seq(|items|, i requires 0 <= i < |items| && items[i].encoderProfile.Some? reads items =>
        ItemRow(items[i].about, items[i].media, items[i].encoderProfile.value.name))
    }

    /** The items are saved in the order in which they are displayed. */
    method SaveConfiguration(table: ItemTable)
      requires forall i | 0 <= i < |buttons| :: buttons[i].encoderProfile.Some?
      modifies table
      ensures table.rows == RowsOf(buttons)
    {
      table.rows := [];
      for x := 0 to |buttons|
        invariant |table.rows| == x
        invariant forall i | 0 <= i < x ::
          table.rows[i] == ItemRow(buttons[i].about, buttons[i].media, buttons[i].encoderProfile.value.name)
      {
        var a := buttons[x];
        table.rows := table.rows + [ItemRow(a.about, a.media, a.encoderProfile.value.name)];
      }
    }

    ghost predicate LoadedFrom(a: ArchiveItem, row: ItemRow)
      reads a
    {
      && a.about == row.about && a.media == row.media
      && a.encoderProfile == FirstNamed(setup.profiles, row.profileName)
      && !a.useCutlist && !a.editedDetails && a.thumbList == []
    }

    method LoadConfiguration(table: ItemTable)
      requires setup.Valid()
      modifies archive
      ensures |archive.items| == |table.rows|
      ensures forall i | 0 <= i < |archive.items| ::
        fresh(archive.items[i]) && LoadedFrom(archive.items[i], table.rows[i])
      ensures WellListed()
    {
      archive.items := [];
      for x := 0 to |table.rows|
        invariant |archive.items| == x
        invariant forall i | 0 <= i < x :: fresh(archive.items[i]) && LoadedFrom(archive.items[i], table.rows[i])
        invariant WellListed()
      {
        var row := table.rows[x];
        var profile := GetProfileFromName(row.profileName);
        var a := new ArchiveItem(row.about, row.media, profile);
        archive.items := archive.items + [a];
      }
    }

    ghost predicate ShownFrom(a: ArchiveItem, row: ItemRow)
      requires |setup.profiles| > 0
      reads a
    {
      && a.about == row.about && a.media == setup.RefreshedMedia(row.about, row.media)
      && a.encoderProfile == setup.RefreshedProfile(FirstNamed(setup.profiles, row.profileName), a.media)
      && !a.useCutlist && !a.editedDetails && a.thumbList == []
    }

    /** A screen that opens loads the saved list and refreshes it. */
    method ShowSaved(table: ItemTable)
      requires setup.Valid()
      modifies this`buttons, this`cursor, this`usedSpace, this`overfull, this`drawn, archive
      ensures Consistent() && BarFresh() && buttons == archive.items && |buttons| == |table.rows|
      ensures forall i | 0 <= i < |buttons| :: fresh(buttons[i]) && ShownFrom(buttons[i], table.rows[i])
    {
      LoadConfiguration(table);
      UpdateArchiveList();
    }
  }


  lemma {:induction false} WithoutDistinct<T>(s: seq<T>, gone: seq<T>)
    requires forall i, j | 0 <= i < j < |s| :: s[i] != s[j]
    ensures var r := Without(s, gone); forall i, j | 0 <= i < j < |r| :: r[i] != r[j]
  {
    if |s| > 0 {
      var front := s[..|s| - 1];
      WithoutDistinct(front, gone);
      WithoutMembers(front, gone, s[|s| - 1]);
    }
  }

  lemma {:induction false} WithoutOne<T>(s: seq<T>, i: nat)
    requires i < |s| && forall j, k | 0 <= j < k < |s| :: s[j] != s[k]
    ensures Without(s, [s[i]]) == s[..i] + s[i + 1..]
  {
    var front, last := s[..|s| - 1], s[|s| - 1];
    if i < |s| - 1 {
      WithoutOne(front, i);
      assert s[..i] + s[i + 1..] == (front[..i] + front[i + 1..]) + [last];
    } else {
      WithoutAbsent(front, last);
      assert s[..i] + s[i + 1..] == front;
    }
  }

  lemma {:induction false} WithoutAbsent<T>(s: seq<T>, x: T)
    requires x !in s
    ensures Without(s, [x]) == s
  {
    if |s| > 0 {
      WithoutAbsent(s[..|s| - 1], x);
    }
  }

  /** Taking an entry out and putting it back one place further on swaps it with its neighbour. */
  lemma MovingIsSwapping<T>(s: seq<T>, i: nat, j: nat)
    requires i < |s| && j < |s| && (j == i + 1 || i == j + 1)
    ensures var rest := s[..i] + s[i + 1..];
      rest[..j] + [s[i]] + rest[j..] == Swapped(s, i, j)
    ensures multiset(Swapped(s, i, j)) == multiset(s)
  {
  }

  // ----- a failing input ------------------------------------------------------------------------

  const EXAMPLE_PROFILES := [EncoderProfile(NO_REENCODING, "", 0.0), EncoderProfile("SP", "", 1.0)]

  /** An hour of ten megabytes that is copied, and would be one megabyte when encoded. */
  const EXAMPLE_ROW := ItemRow(About("Video", "", "", "", "", "", 10 * MEGABYTE, "film.mpg", false),
                               Media(3600, 3600, 720, 576, "", ""), NO_REENCODING)

  method ShowExample() returns (burn: MythBurn)
    ensures fresh(burn) && burn.setup.profiles == EXAMPLE_PROFILES && burn.Consistent() && burn.BarFresh()
    ensures burn.buttons == burn.archive.items && |burn.buttons| == 1
    ensures fresh(burn.buttons[0])
    ensures burn.buttons[0].about == EXAMPLE_ROW.about && burn.buttons[0].media == EXAMPLE_ROW.media
    ensures burn.buttons[0].encoderProfile == Some(EXAMPLE_PROFILES[0]) && !burn.buttons[0].useCutlist
  {
    var table := new ItemTable;
    table.rows := [EXAMPLE_ROW];
    var archive := new ItemList();
    burn := new MythBurn(Setup(EXAMPLE_PROFILES, "SP", false, 0, map[]), archive);
    assert EXAMPLE_PROFILES[1..][0].name == "SP";
    burn.ShowSaved(table);
  }

  /** The bar shows the ten megabytes of a list whose one item has shrunk to one. */
  method AbandonedDialogMisleads() returns (burn: MythBurn)
    ensures fresh(burn) && burn.ListsAgree() && !burn.BarMatches()
    ensures burn.usedSpace == 10 && Megabytes(Total(burn.archive.items)) == 1
  {
    burn := ShowExample();
    ExampleSizes();
    OneItem(burn.archive.items);
    var item := burn.buttons[0];
    assert item in burn.archive.items && item.newsize == 10 * MEGABYTE;
    burn.ChangeProfile([1], false, item.Value());
    assert item in burn.archive.items && item.encoderProfile == Some(EXAMPLE_PROFILES[1]);
    ExampleSizes();
    OneItem(burn.archive.items);
  }

  lemma ExampleSizes()
    ensures SizeFor(EXAMPLE_ROW.about.size, false, EXAMPLE_ROW.media, EXAMPLE_PROFILES[1]) == MEGABYTE
    ensures Megabytes(MEGABYTE) == 1 && Megabytes(10 * MEGABYTE) == 10
  {
  }

  lemma OneItem(items: seq<ArchiveItem>)
    requires |items| == 1
    ensures Total(items) == items[0].newsize
  {
    assert Total(items[..0]) == 0;
  }
}
