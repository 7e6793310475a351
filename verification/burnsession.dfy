/** Whole runs of the burn screen, and what survives closing and reopening it. */
module BurnSession {
  import opened ArchiveItems
  import opened BurnList
  import opened Selecting

  datatype Action =
    | Select(kind: string, source: seq<Entry>, picks: seq<Entry>)
    | Remove
    | ToggleCut
    | Click
    | Keys(key: MoveKey)
    | Highlight(place: nat)
    | Profile(highlights: seq<nat>, confirmed: bool)

  // ----- the screen as a value ---------------------------------------------------------------------

  /** The items in the order of the list, the places in that list that the buttons show, the
      sum of the sizes when the bar was last drawn, where that is defined, and whether no size
      can have changed since. */
  datatype Screen = Screen(items: seq<ItemValue>, order: seq<nat>, cursor: nat, moveMode: bool,
                           drawn: Option<int>, upToDate: bool)
  {
    predicate Valid() {
      && |order| == |items| && (forall k | 0 <= k < |order| :: order[k] < |items|)
      && (if |order| == 0 then cursor == 0 else cursor < |order|)
    }

    function Current(): (i: nat)
      requires Valid() && |order| > 0
      ensures i < |items|
    {
      order[cursor]
    }

    function WithCurrent(v: ItemValue): (r: Screen)
      requires Valid() && |order| > 0
      ensures r.Valid()
    {
      this.(items := items[Current() := v])
    }
  }

  function TotalSize(values: seq<ItemValue>): Option<int> {
    if |values| == 0 then Some(0)
    else
      var before, last := TotalSize(values[..|values| - 1]), values[|values| - 1].size;
      if before.Some? && last.Some? then Some(before.value + last.value) else None
  }

  function Identity(n: nat): (r: seq<nat>)
    ensures |r| == n && forall k | 0 <= k < n :: r[k] == k
  {
    if n == 0 then [] else Identity(n - 1) + [n - 1]
  }

  /** The screen after the list has been rebuilt. */
  function Rebuilt(values: seq<ItemValue>, moveMode: bool): (r: Screen)
    ensures r.Valid()
  {
    Screen(values, Identity(|values|), 0, moveMode, TotalSize(values), true)
  }

  /** Every item shown has a profile of the list. */
  predicate Ready(setup: Setup, s: Screen) {
    setup.Valid() && s.Valid() && forall i | 0 <= i < |s.items| :: HasProfile(setup, s.items[i])
  }

  predicate HasProfile(setup: Setup, v: ItemValue) {
    v.profile.Some? && v.profile.value in setup.profiles
  }

  lemma ProfileHasPlace(profiles: seq<EncoderProfile>, p: EncoderProfile)
    requires p in profiles
    ensures NamePosition(profiles, p.name) < |profiles|
  {
  }

  lemma RefreshedHasProfile(setup: Setup, v: ItemValue)
    requires setup.Valid() && (v.profile.Some? ==> v.profile.value in setup.profiles)
    ensures HasProfile(setup, setup.RefreshedValue(v))
  {
    var media := setup.RefreshedMedia(v.about, v.media);
    if v.profile == None {
      assert setup.profiles[NamePosition(setup.profiles, setup.defaultProfile)].name == setup.defaultProfile;
    }
  }

  predicate KnowsAll(setup: Setup, values: seq<ItemValue>) {
    forall i | 0 <= i < |values| && values[i].profile.Some? :: values[i].profile.value in setup.profiles
  }

  lemma RebuiltReady(setup: Setup, values: seq<ItemValue>, moveMode: bool)
    requires setup.Valid() && KnowsAll(setup, values)
    ensures Ready(setup, Rebuilt(setup.RefreshedAll(values), moveMode))
  {
    forall i | 0 <= i < |values|
      ensures HasProfile(setup, setup.RefreshedAll(values)[i])
    {
      RefreshedHasProfile(setup, values[i]);
    }
  }

  lemma {:induction false} KeptKnown(setup: Setup, values: seq<ItemValue>, kind: string, selected: seq<Entry>)
    requires KnowsAll(setup, values)
    ensures KnowsAll(setup, KeptValues(values, kind, selected))
  {
    if |values| > 0 {
      KeptKnown(setup, values[..|values| - 1], kind, selected);
    }
  }

  lemma {:induction false} BrowsedHasProfile(setup: Setup, v: ItemValue, highlights: seq<nat>)
    requires HasProfile(setup, v) && NamePosition(setup.profiles, v.profile.value.name) < |setup.profiles|
    requires forall k | 0 <= k < |highlights| :: highlights[k] < |setup.profiles|
    ensures HasProfile(setup, setup.Browsed(v, highlights))
  {
    if |highlights| > 0 {
      BrowsedHasProfile(setup, v, highlights[..|highlights| - 1]);
    }
  }

  /** The lines highlighted in a dialog are lines it has. */
  predicate Fits(setup: Setup, action: Action) {
    action.Profile? ==> forall k | 0 <= k < |action.highlights| :: action.highlights[k] < |setup.profiles|
  }

  function After(setup: Setup, s: Screen, action: Action): (r: Screen)
    requires Ready(setup, s) && Fits(setup, action)
    ensures Ready(setup, r)
  {
    match action
    case Select(kind, source, picks) => AfterSelect(setup, s, kind, source, picks)
    case Remove => if |s.order| == 0 then s else AfterRemove(setup, s)
    case ToggleCut => if |s.order| == 0 then s else AfterToggle(setup, s)
    case Profile(highlights, confirmed) =>
      if |s.order| == 0 then s else AfterDialog(setup, s, highlights, confirmed)
    case Click => s.(moveMode := !s.moveMode)
    case Highlight(n) => if !s.moveMode && n < |s.order| then s.(cursor := n) else s
    case Keys(key) => if s.moveMode && |s.order| > 0 then AfterKey(setup, s, key) else s
  }

  function AfterSelect(setup: Setup, s: Screen, kind: string, source: seq<Entry>, picks: seq<Entry>): (r: Screen)
    requires Ready(setup, s)
    ensures Ready(setup, r) && r.upToDate
  {
    var values := SelectedValues(s.items, kind, source, picks);
    KeptKnown(setup, s.items, kind, Picked(Seeded(AboutsOf(s.items), source), picks));
    RebuiltReady(setup, values, s.moveMode);
    Rebuilt(setup.RefreshedAll(values), s.moveMode)
  }

  function AfterRemove(setup: Setup, s: Screen): (r: Screen)
    requires Ready(setup, s) && |s.order| > 0
    ensures Ready(setup, r) && r.upToDate
  {
    var i := s.Current();
    RebuiltReady(setup, s.items[..i] + s.items[i + 1..], s.moveMode);
    Rebuilt(setup.RefreshedAll(s.items[..i] + s.items[i + 1..]), s.moveMode)
  }

  function AfterToggle(setup: Setup, s: Screen): (r: Screen)
    requires Ready(setup, s) && |s.order| > 0
    ensures Ready(setup, r) && (s.upToDate ==> r.upToDate) && |r.order| == |s.order|
  {
    var v := s.items[s.Current()];
    var r := s.WithCurrent(v.CutToggled());
    if v.about.hasCutlist then r.(drawn := TotalSize(r.items), upToDate := true) else r
  }

  function AfterDialog(setup: Setup, s: Screen, highlights: seq<nat>, confirmed: bool): (r: Screen)
    requires Ready(setup, s) && |s.order| > 0 && Fits(setup, Profile(highlights, confirmed))
    ensures Ready(setup, r) && r.upToDate == confirmed && |r.order| == |s.order|
  {
    var v := s.items[s.Current()];
    ProfileHasPlace(setup.profiles, v.profile.value);
    BrowsedHasProfile(setup, v, highlights);
    var r := s.WithCurrent(setup.Dialogued(v, highlights, confirmed));
    if confirmed then r.(drawn := TotalSize(r.items), upToDate := true) else r.(upToDate := false)
  }

  function AfterKey(setup: Setup, s: Screen, key: MoveKey): (r: Screen)
    requires Ready(setup, s) && |s.order| > 0
    ensures Ready(setup, r) && r.upToDate == s.upToDate && |r.order| == |s.order|
  {
    if key == PutDown then s.(moveMode := false)
    else
      var next := Neighbour(key == Up, s.cursor, |s.order|);
      s.(order := Swapped(s.order, s.cursor, next), cursor := next)
  }

  /** The screen after the first k actions. */
  function AfterFirst(setup: Setup, s: Screen, actions: seq<Action>, k: nat): (r: Screen)
    requires Ready(setup, s) && k <= |actions| && forall j | 0 <= j < |actions| :: Fits(setup, actions[j])
    ensures Ready(setup, r)
  {
    if k == 0 then s else After(setup, AfterFirst(setup, s, actions, k - 1), actions[k - 1])
  }

  function AfterAll(setup: Setup, s: Screen, actions: seq<Action>): (r: Screen)
    requires Ready(setup, s) && forall j | 0 <= j < |actions| :: Fits(setup, actions[j])
    ensures Ready(setup, r)
  {
    AfterFirst(setup, s, actions, |actions|)
  }

  predicate SizesKnown(values: seq<ItemValue>) {
    forall i | 0 <= i < |values| :: values[i].SizeKnown()
  }

  lemma ResizedKnown(v: ItemValue)
    ensures v.Resized().SizeKnown()
  {
  }

  lemma RefreshedKnown(setup: Setup, values: seq<ItemValue>)
    requires |setup.profiles| > 0
    ensures SizesKnown(setup.RefreshedAll(values))
  {
    forall i | 0 <= i < |values|
      ensures setup.RefreshedValue(values[i]).SizeKnown()
    {
      var v := values[i];
      var media := setup.RefreshedMedia(v.about, v.media);
      ResizedKnown(v.(media := media, profile := setup.RefreshedProfile(v.profile, media)));
    }
  }

  lemma ToggleKnown(setup: Setup, s: Screen)
    requires Ready(setup, s) && |s.order| > 0 && SizesKnown(s.items)
    ensures SizesKnown(AfterToggle(setup, s).items)
  {
    var v := s.items[s.Current()];
    ResizedKnown(v.(useCutlist := !v.useCutlist));
  }

  lemma DialogKnown(setup: Setup, s: Screen, highlights: seq<nat>, confirmed: bool)
    requires Ready(setup, s) && |s.order| > 0 && SizesKnown(s.items) && Fits(setup, Profile(highlights, confirmed))
    ensures SizesKnown(AfterDialog(setup, s, highlights, confirmed).items)
  {
    var v := s.items[s.Current()];
    ProfileHasPlace(setup.profiles, v.profile.value);
    DialoguedSizeKnown(setup, v, highlights, confirmed);
  }

  lemma StepSizesKnown(setup: Setup, s: Screen, action: Action)
    requires Ready(setup, s) && Fits(setup, action) && SizesKnown(s.items)
    ensures SizesKnown(After(setup, s, action).items)
  {
    match action
    case Select(kind, source, picks) => RefreshedKnown(setup, SelectedValues(s.items, kind, source, picks));
    case Remove =>
      if |s.order| > 0 {
        RefreshedKnown(setup, s.items[..s.Current()] + s.items[s.Current() + 1..]);
      }
    case ToggleCut =>
      if |s.order| > 0 {
        ToggleKnown(setup, s);
      }
    case Profile(highlights, confirmed) =>
      if |s.order| > 0 {
        DialogKnown(setup, s, highlights, confirmed);
      }
    case _ =>
  }

  /** Through a whole run, every item that has a size by its profile, its cuts and its duration
      has exactly that size. */
  lemma {:induction false} SizesStayKnown(setup: Setup, s: Screen, actions: seq<Action>, k: nat)
    requires Ready(setup, s) && k <= |actions| && forall j | 0 <= j < |actions| :: Fits(setup, actions[j])
    requires SizesKnown(s.items)
    ensures SizesKnown(AfterFirst(setup, s, actions, k).items)
  {
    if k > 0 {
      SizesStayKnown(setup, s, actions, k - 1);
      StepSizesKnown(setup, AfterFirst(setup, s, actions, k - 1), actions[k - 1]);
    }
  }

  /** With durations throughout, the sum of the sizes is defined. */
  lemma {:induction false} TotalDefined(setup: Setup, values: seq<ItemValue>)
    requires forall i | 0 <= i < |values| :: HasProfile(setup, values[i]) && values[i].media.duration != 0
    requires SizesKnown(values)
    ensures TotalSize(values).Some?
  {
    if |values| > 0 {
      TotalDefined(setup, values[..|values| - 1]);
    }
  }

  ghost predicate Places(buttons: seq<ArchiveItem>, items: seq<ArchiveItem>, order: seq<nat>) {
    && |buttons| == |order|
    && forall k | 0 <= k < |order| :: order[k] < |items| && buttons[k] == items[order[k]]
  }

  lemma SwappedPlaces(buttons: seq<ArchiveItem>, items: seq<ArchiveItem>, order: seq<nat>, i: nat, j: nat)
    requires Places(buttons, items, order) && i < |order| && j < |order|
    ensures Places(Swapped(buttons, i, j), items, Swapped(order, i, j))
  {
  }

  /** The buttons show the items at some places of the list. */
  ghost predicate Placed(burn: MythBurn, order: seq<nat>, cursor: nat, moveMode: bool)
    reads burn`buttons, burn`cursor, burn`moveMode, burn.archive
  {
    && burn.cursor == cursor && burn.moveMode == moveMode
    && Places(burn.buttons, burn.archive.items, order)
  }

  /** What is on the screen is as a value says. */
  ghost predicate Shown(burn: MythBurn, s: Screen)
    reads burn`buttons, burn`cursor, burn`moveMode, burn`drawn, burn.archive, burn.archive.items
  {
    && Ready(burn.setup, s) && Placed(burn, s.order, s.cursor, s.moveMode)
    && AllShow(burn.archive.items, s.items)
    && BarAs(burn, s.drawn, s.upToDate)
  }

  ghost predicate BarAs(burn: MythBurn, drawn: Option<int>, upToDate: bool)
    reads burn`drawn, burn.archive, burn.archive.items
  {
    (drawn.Some? ==> burn.drawn == drawn.value) && (upToDate ==> burn.drawn == Total(burn.archive.items))
  }

  /** One item has changed, and the others are as they were. */
  lemma OneChanged(items: seq<ArchiveItem>, was: seq<ItemValue>, values: seq<ItemValue>, i: nat, v: ItemValue)
    requires |items| == |was| == |values| && i < |items| && items[i].Shows(v)
    requires forall j | 0 <= j < |items| && j != i :: items[j].Value() == was[j]
    requires forall j | 0 <= j < |items| :: was[j].Covers(values[j])
    ensures AllShow(items, values[i := v])
  {
  }

  lemma {:induction false} TotalShown(items: seq<ArchiveItem>, values: seq<ItemValue>)
    requires AllShow(items, values)
    ensures TotalSize(values).Some? ==> Total(items) == TotalSize(values).value
  {
    if |items| > 0 {
      TotalShown(items[..|items| - 1], values[..|values| - 1]);
    }
  }

  lemma RebuiltShown(burn: MythBurn, values: seq<ItemValue>)
    requires AllShow(burn.archive.items, values) && burn.buttons == burn.archive.items
    requires burn.cursor == 0 && burn.drawn == Total(burn.archive.items)
    requires Ready(burn.setup, Rebuilt(values, burn.moveMode))
    ensures Shown(burn, Rebuilt(values, burn.moveMode))
  {
    TotalShown(burn.archive.items, values);
  }

  /** A screen that has just been opened or refreshed shows its items' own values. */
  lemma OpenedShown(burn: MythBurn)
    requires burn.ListsAgree() && burn.BarFresh() && burn.buttons == burn.archive.items && burn.cursor == 0
    ensures Shown(burn, Rebuilt(ValuesOf(burn.archive.items), burn.moveMode))
    ensures SizesKnown(ValuesOf(burn.archive.items))
  {
    var values := ValuesOf(burn.archive.items);
    forall i | 0 <= i < |values|
      ensures HasProfile(burn.setup, values[i]) && values[i].SizeKnown()
    {
      assert burn.archive.items[i] in burn.archive.items;
    }
    RebuiltShown(burn, values);
  }

  /** The screen after a change of the current item alone. */
  lemma ChangedShown(burn: MythBurn, s: Screen, v: ItemValue, t: Screen)
    requires Ready(burn.setup, t) && |s.order| > 0 && s.Valid() && Placed(burn, s.order, s.cursor, s.moveMode)
    requires AllShow(burn.archive.items, s.items[s.Current() := v])
    requires t == s.WithCurrent(v).(drawn := t.drawn, upToDate := t.upToDate)
    requires (t.drawn == TotalSize(t.items) && burn.drawn == Total(burn.archive.items))
      || BarAs(burn, t.drawn, t.upToDate)
    ensures Shown(burn, t)
  {
    TotalShown(burn.archive.items, t.items);
  }

  lemma ToggledShown(burn: MythBurn, s: Screen)
    requires Ready(burn.setup, s) && |s.order| > 0 && Placed(burn, s.order, s.cursor, s.moveMode)
    requires AllShow(burn.archive.items, s.items[s.Current() := s.items[s.Current()].CutToggled()])
    requires if s.items[s.Current()].about.hasCutlist then burn.drawn == Total(burn.archive.items)
             else BarAs(burn, s.drawn, s.upToDate)
    ensures Shown(burn, AfterToggle(burn.setup, s))
  {
    ChangedShown(burn, s, s.items[s.Current()].CutToggled(), AfterToggle(burn.setup, s));
  }

  lemma SelectedShown(burn: MythBurn, kind: string, source: seq<Entry>, picks: seq<Entry>, s: Screen)
    requires Ready(burn.setup, s) && burn.moveMode == s.moveMode
    requires AllShow(burn.archive.items, burn.setup.RefreshedAll(SelectedValues(s.items, kind, source, picks)))
    requires burn.buttons == burn.archive.items && burn.cursor == 0 && burn.drawn == Total(burn.archive.items)
    ensures Shown(burn, AfterSelect(burn.setup, s, kind, source, picks))
  {
    RebuiltShown(burn, AfterSelect(burn.setup, s, kind, source, picks).items);
  }

  lemma KeyShown(burn: MythBurn, s: Screen, key: MoveKey)
    requires Ready(burn.setup, s) && |s.order| > 0 && AllShow(burn.archive.items, s.items)
    requires BarAs(burn, s.drawn, s.upToDate)
    requires var t := AfterKey(burn.setup, s, key); Placed(burn, t.order, t.cursor, t.moveMode)
    ensures Shown(burn, AfterKey(burn.setup, s, key))
  {
  }

  // ----- actions -------------------------------------------------------------------------------------

  predicate Abandons(action: Action) {
    action.Profile? && !action.confirmed
  }

  predicate Redraws(action: Action) {
    action.Select? || action.Remove? || (action.Profile? && action.confirmed)
  }

  /** An action that cannot draw the size bar again. */
  predicate Quiet(action: Action) {
    action.Click? || action.Keys? || action.Highlight? || Abandons(action)
  }

  /** Whether the size bar was drawn, in the first k actions, after the last profile dialog
      that was abandoned. */
  predicate BarCurrent(actions: seq<Action>, k: nat)
    requires k <= |actions|
  {
    k == 0 || Redraws(actions[k - 1]) || (!Abandons(actions[k - 1]) && BarCurrent(actions, k - 1))
  }

  lemma StepUpToDate(setup: Setup, s: Screen, action: Action)
    requires Ready(setup, s) && Fits(setup, action) && (|s.order| == 0 ==> s.upToDate)
    ensures var t := After(setup, s, action);
      && (Redraws(action) || (!Abandons(action) && s.upToDate) ==> t.upToDate)
      && (|t.order| == 0 ==> t.upToDate)
  {
  }

  lemma {:induction false} CurrentIsFresh(setup: Setup, s: Screen, actions: seq<Action>, k: nat)
    requires Ready(setup, s) && s.upToDate && k <= |actions| && forall j | 0 <= j < |actions| :: Fits(setup, actions[j])
    ensures BarCurrent(actions, k) ==> AfterFirst(setup, s, actions, k).upToDate
    ensures |AfterFirst(setup, s, actions, k).order| == 0 ==> AfterFirst(setup, s, actions, k).upToDate
  {
    if k > 0 {
      CurrentIsFresh(setup, s, actions, k - 1);
      StepUpToDate(setup, AfterFirst(setup, s, actions, k - 1), actions[k - 1]);
    }
  }

  ghost predicate Settled(burn: MythBurn)
    reads burn`buttons, burn`cursor, burn`usedSpace, burn`overfull, burn`drawn, burn.archive, burn.archive.items
  {
    burn.ListsAgree() && burn.BarDrawn()
  }

  /** Switches the use of the cut list of the item at place i of the list. */
  method ToggleItem(burn: MythBurn, ghost values: seq<ItemValue>, ghost i: nat)
    requires Settled(burn) && |burn.buttons| > 0 && AllShow(burn.archive.items, values)
    requires i < |values| && burn.archive.items[i] == burn.buttons[burn.cursor]
    modifies burn`usedSpace, burn`overfull, burn`drawn, burn.archive.items
    ensures Settled(burn)
    ensures AllShow(burn.archive.items, values[i := values[i].CutToggled()])
    ensures values[i].about.hasCutlist ==> burn.drawn == Total(burn.archive.items)
    ensures !values[i].about.hasCutlist ==>
      burn.drawn == old(burn.drawn) && Total(burn.archive.items) == old(Total(burn.archive.items))
  {
    burn.InBoth(burn.buttons[burn.cursor]);
    ghost var was := ValuesOf(burn.archive.items);
    burn.ToggleUseCutlist(values[i]);
    OneChanged(burn.archive.items, was, values, i, values[i].CutToggled());
  }

  method Toggle(burn: MythBurn, ghost s: Screen) returns (ghost t: Screen)
    requires Settled(burn) && |burn.buttons| > 0 && Shown(burn, s)
    modifies burn`usedSpace, burn`overfull, burn`drawn, burn.archive.items
    ensures Settled(burn)
    ensures t == AfterToggle(burn.setup, s) && Shown(burn, t)
  {
    ToggleItem(burn, s.items, s.Current());
    ToggledShown(burn, s);
    t := AfterToggle(burn.setup, s);
  }

  /** Uses the profile dialog on the item at place i of the list. */
  method ChooseForItem(burn: MythBurn, highlights: seq<nat>, confirmed: bool,
                       ghost values: seq<ItemValue>, ghost i: nat)
    requires Settled(burn) && |burn.buttons| > 0 && AllShow(burn.archive.items, values)
    requires i < |values| && burn.archive.items[i] == burn.buttons[burn.cursor]
    requires forall k | 0 <= k < |highlights| :: highlights[k] < |burn.setup.profiles|
    modifies burn`usedSpace, burn`overfull, burn`drawn, burn.archive.items
    ensures Settled(burn) && (if confirmed then burn.BarFresh() else burn.drawn == old(burn.drawn))
    ensures burn.InProfiles(values[i].profile)
    ensures AllShow(burn.archive.items, values[i := burn.setup.Dialogued(values[i], highlights, confirmed)])
  {
    burn.InBoth(burn.buttons[burn.cursor]);
    ghost var was := ValuesOf(burn.archive.items);
    burn.ChangeProfile(highlights, confirmed, values[i]);
    OneChanged(burn.archive.items, was, values, i, burn.setup.Dialogued(values[i], highlights, confirmed));
  }

  method ChooseProfile(burn: MythBurn, highlights: seq<nat>, confirmed: bool, ghost s: Screen)
    returns (ghost t: Screen)
    requires Settled(burn) && |burn.buttons| > 0 && Shown(burn, s)
    requires forall k | 0 <= k < |highlights| :: highlights[k] < |burn.setup.profiles|
    modifies burn`usedSpace, burn`overfull, burn`drawn, burn.archive.items
    ensures Settled(burn) && (if confirmed then burn.BarFresh() else burn.drawn == old(burn.drawn))
    ensures t == AfterDialog(burn.setup, s, highlights, confirmed) && Shown(burn, t)
  {
    ghost var i := s.Current();
    ChooseForItem(burn, highlights, confirmed, s.items, i);
    t := AfterDialog(burn.setup, s, highlights, confirmed);
    ChangedShown(burn, s, burn.setup.Dialogued(s.items[i], highlights, confirmed), t);
  }

  method TakeOff(burn: MythBurn, ghost s: Screen) returns (ghost t: Screen)
    requires Settled(burn) && |burn.buttons| > 0 && Shown(burn, s)
    modifies burn`buttons, burn`cursor, burn`usedSpace, burn`overfull, burn`drawn, burn.archive, burn.archive.items
    ensures Settled(burn)
    ensures t == AfterRemove(burn.setup, s) && Shown(burn, t)
    ensures forall i | 0 <= i < |burn.archive.items| :: burn.archive.items[i] in old(burn.archive.items)
  {
    ghost var i := s.Current();
    assert burn.archive.items[i] == burn.buttons[burn.cursor];
    ghost var values := burn.setup.RefreshedAll(s.items[..i] + s.items[i + 1..]);
    burn.RemoveItem(s.items, i);
    t := AfterRemove(burn.setup, s);
    RebuiltShown(burn, values);
  }

  method SelectItems(burn: MythBurn, kind: string, source: seq<Entry>, picks: seq<Entry>, ghost s: Screen)
    returns (ghost t: Screen)
    requires Settled(burn) && Shown(burn, s)
    modifies burn`buttons, burn`cursor, burn`usedSpace, burn`overfull, burn`drawn, burn.archive, burn.archive.items
    ensures Settled(burn)
    ensures t == AfterSelect(burn.setup, s, kind, source, picks)
    ensures Shown(burn, t)
    ensures forall i | 0 <= i < |burn.archive.items| ::
      burn.archive.items[i] in old(burn.archive.items) || fresh(burn.archive.items[i])
  {
    burn.AddItems(kind, source, picks, s.items);
    SelectedShown(burn, kind, source, picks, s);
    t := AfterSelect(burn.setup, s, kind, source, picks);
  }

  method MovePlaces(burn: MythBurn, up: bool, ghost order: seq<nat>)
    requires burn.ButtonsMatch() && burn.moveMode && |burn.buttons| > 0
    requires Places(burn.buttons, burn.archive.items, order)
    modifies burn`moveMode, burn`buttons, burn`cursor
    ensures burn.ButtonsMatch() && burn.moveMode && burn.cursor == Neighbour(up, old(burn.cursor), |order|)
    ensures old(burn.cursor) < |order|
    ensures Places(burn.buttons, burn.archive.items, Swapped(order, old(burn.cursor), burn.cursor))
  {
    SwappedPlaces(burn.buttons, burn.archive.items, order, burn.cursor, Neighbour(up, burn.cursor, |order|));
    burn.MoveKey(if up then Up else Down);
  }

  method MoveItem(burn: MythBurn, up: bool, ghost s: Screen) returns (ghost t: Screen)
    requires Settled(burn) && Shown(burn, s) && burn.moveMode && |burn.buttons| > 0
    modifies burn`moveMode, burn`buttons, burn`cursor
    ensures Settled(burn) && t == AfterKey(burn.setup, s, if up then Up else Down) && Shown(burn, t)
  {
    MovePlaces(burn, up, s.order);
    assert burn.ItemsCurrent() && burn.ButtonsMatch();
    KeyShown(burn, s, if up then Up else Down);
    t := AfterKey(burn.setup, s, if up then Up else Down);
  }

  method PutItemDown(burn: MythBurn, ghost s: Screen) returns (ghost t: Screen)
    requires Settled(burn) && Shown(burn, s) && burn.moveMode && |burn.buttons| > 0
    modifies burn`moveMode, burn`buttons, burn`cursor
    ensures Settled(burn) && t == AfterKey(burn.setup, s, PutDown) && Shown(burn, t)
  {
    burn.MoveKey(PutDown);
    assert burn.ItemsCurrent() && burn.ButtonsMatch();
    KeyShown(burn, s, PutDown);
    t := AfterKey(burn.setup, s, PutDown);
  }

  method PressKey(burn: MythBurn, key: MoveKey, ghost s: Screen) returns (ghost t: Screen)
    requires Settled(burn) && Shown(burn, s) && burn.moveMode && |burn.buttons| > 0
    modifies burn`moveMode, burn`buttons, burn`cursor
    ensures Settled(burn) && t == AfterKey(burn.setup, s, key) && Shown(burn, t)
  {
    match key
    case PutDown => t := PutItemDown(burn, s);
    case Up => t := MoveItem(burn, true, s);
    case Down => t := MoveItem(burn, false, s);
  }

  method MoveCursor(burn: MythBurn, place: nat, ghost s: Screen) returns (ghost t: Screen)
    requires Settled(burn) && Shown(burn, s) && place < |burn.buttons|
    modifies burn`cursor
    ensures Settled(burn) && t == s.(cursor := place) && Shown(burn, t)
  {
    burn.Highlight(place);
    t := s.(cursor := place);
  }

  method ClickItem(burn: MythBurn, ghost s: Screen) returns (ghost t: Screen)
    requires Settled(burn) && Shown(burn, s)
    modifies burn`moveMode
    ensures Settled(burn) && t == s.(moveMode := !s.moveMode) && Shown(burn, t)
  {
    burn.ItemClicked();
    t := s.(moveMode := !s.moveMode);
  }

  /** Clicks and keys: they change what is shown where, and nothing else. */
  method PerformInPlace(burn: MythBurn, action: Action, ghost s: Screen) returns (ghost t: Screen)
    requires Settled(burn) && Shown(burn, s) && (action.Click? || action.Keys? || action.Highlight?)
    modifies burn`moveMode, burn`buttons, burn`cursor
    ensures Settled(burn) && t == After(burn.setup, s, action) && Shown(burn, t)
  {
    t := s;
    match action {
      case Click => t := ClickItem(burn, s);
      case Highlight(place) =>
        if !burn.moveMode && place < |burn.buttons| {
          t := MoveCursor(burn, place, s);
        }
      case Keys(key) =>
        if burn.moveMode && |burn.buttons| > 0 {
          t := PressKey(burn, key, s);
        }
    }
  }

  /** An action that cannot draw the bar. */
  method PerformQuiet(burn: MythBurn, action: Action, ghost s: Screen) returns (ghost t: Screen)
    requires Settled(burn) && Fits(burn.setup, action) && Shown(burn, s) && Quiet(action)
    modifies burn`moveMode, burn`buttons, burn`cursor, burn`usedSpace, burn`overfull, burn`drawn, burn.archive.items
    ensures Settled(burn) && t == After(burn.setup, s, action) && Shown(burn, t)
    ensures burn.drawn == old(burn.drawn)
  {
    if !Abandons(action) {
      t := PerformInPlace(burn, action, s);
    } else if |burn.buttons| > 0 {
      t := ChooseProfile(burn, action.highlights, false, s);
    } else {
      t := s;
    }
  }

  /** An action on the current item that can draw the bar; it needs a list that is not empty. */
  method PerformOnCurrent(burn: MythBurn, action: Action, ghost s: Screen) returns (ghost t: Screen)
    requires Settled(burn) && Fits(burn.setup, action) && Shown(burn, s) && !Quiet(action) && !action.Select?
    modifies burn`buttons, burn`cursor, burn`usedSpace, burn`overfull, burn`drawn, burn.archive, burn.archive.items
    ensures Settled(burn) && t == After(burn.setup, s, action) && Shown(burn, t)
    ensures forall i | 0 <= i < |burn.archive.items| :: burn.archive.items[i] in old(burn.archive.items)
  {
    if |burn.buttons| == 0 {
      t := s;
    } else if action.ToggleCut? {
      t := Toggle(burn, s);
    } else if action.Remove? {
      t := TakeOff(burn, s);
    } else {
      t := ChooseProfile(burn, action.highlights, true, s);
    }
  }

  method Perform(burn: MythBurn, action: Action, ghost s: Screen) returns (ghost t: Screen)
    requires Settled(burn) && Fits(burn.setup, action) && Shown(burn, s)
    modifies burn, burn.archive, burn.archive.items
    ensures Settled(burn) && t == After(burn.setup, s, action) && Shown(burn, t)
    ensures forall i | 0 <= i < |burn.archive.items| ::
      burn.archive.items[i] in old(burn.archive.items) || fresh(burn.archive.items[i])
  {
    if action.Select? {
      t := SelectItems(burn, action.kind, action.source, action.picks, s);
    } else if Quiet(action) {
      t := PerformQuiet(burn, action, s);
    } else {
      t := PerformOnCurrent(burn, action, s);
    }
  }

  method RunActions(burn: MythBurn, actions: seq<Action>, ghost s: Screen) returns (ghost t: Screen)
    requires Settled(burn) && Shown(burn, s)
    requires forall k | 0 <= k < |actions| :: Fits(burn.setup, actions[k])
    modifies burn, burn.archive, burn.archive.items
    ensures Settled(burn) && t == AfterAll(burn.setup, s, actions) && Shown(burn, t)
  {
    t := s;
    for k := 0 to |actions|
      invariant Settled(burn) && t == AfterFirst(burn.setup, s, actions, k) && Shown(burn, t)
      invariant forall i | 0 <= i < |burn.archive.items| ::
        burn.archive.items[i] in old(burn.archive.items) || fresh(burn.archive.items[i])
    {
      t := Perform(burn, actions[k], t);
    }
  }

  /** In every state a run reaches, the buttons show exactly the items of the list, every item
      has the size its profile and cut list choice give it, and items, order, cursor and the
      sum last drawn are those that the actions make of the first screen. The size bar is
      right exactly when these have a sum with the same megabytes as the sum last drawn, which
      they have if no profile dialog was abandoned since. */
  method RunSession(burn: MythBurn, actions: seq<Action>, ghost s: Screen)
    requires burn.ListsAgree() && burn.BarFresh() && Shown(burn, s) && s.upToDate
    requires forall k | 0 <= k < |actions| :: Fits(burn.setup, actions[k])
    modifies burn, burn.archive, burn.archive.items
    ensures burn.ListsAgree() && Shown(burn, AfterAll(burn.setup, s, actions))
    ensures var t := AfterAll(burn.setup, s, actions);
      TotalSize(t.items).Some? && t.drawn.Some? ==>
      (burn.Consistent() <==> Megabytes(TotalSize(t.items).value) == Megabytes(t.drawn.value))
    ensures BarCurrent(actions, |actions|) ==> burn.Consistent()
  {
    ghost var t := RunActions(burn, actions, s);
    TotalShown(burn.archive.items, t.items);
    burn.BarMatchesIff();
    if BarCurrent(actions, |actions|) {
      CurrentIsFresh(burn.setup, s, actions, |actions|);
    }
  }

  /** Over a run that cannot draw the bar again, it stays right exactly when what the actions
      make of the sizes has the megabytes of the sum that the run began with. */
  method RunQuiet(burn: MythBurn, actions: seq<Action>, ghost s: Screen)
    requires burn.ListsAgree() && burn.BarFresh() && Shown(burn, s) && s.upToDate
    requires forall k | 0 <= k < |actions| :: Fits(burn.setup, actions[k]) && Quiet(actions[k])
    modifies burn`moveMode, burn`buttons, burn`cursor, burn`usedSpace, burn`overfull, burn`drawn, burn.archive.items
    ensures burn.archive.items == old(burn.archive.items)
    ensures var after := TotalSize(AfterAll(burn.setup, s, actions).items);
      after.Some? ==>
      (burn.Consistent() <==> Megabytes(after.value) == Megabytes(old(Total(burn.archive.items))))
  {
    ghost var t := s;
    for k := 0 to |actions|
      invariant Settled(burn) && t == AfterFirst(burn.setup, s, actions, k) && Shown(burn, t)
      invariant burn.drawn == old(burn.drawn) && burn.archive.items == old(burn.archive.items)
    {
      t := PerformQuiet(burn, actions[k], t);
    }
    TotalShown(burn.archive.items, t.items);
    burn.BarMatchesIff();
  }

  /** A list that is saved when its screen closes is shown by the next screen in the order
      in which it was displayed, with everything but the cut list choices, the edited flags
      and the thumbnails; a profile listed first under its name is the same again. */
  method Reopen(burn: MythBurn, table: ItemTable, next: MythBurn)
    requires burn.ListsAgree() && next.setup == burn.setup
    requires next != burn && next.archive != burn.archive
    modifies table, next, next.archive
    ensures next.Consistent()
    ensures |next.buttons| == |burn.buttons|
    ensures forall i | 0 <= i < |burn.buttons| ::
      && fresh(next.buttons[i])
      && burn.buttons[i].encoderProfile.Some?
      && next.buttons[i].about == burn.buttons[i].about
      && next.buttons[i].media == next.setup.RefreshedMedia(burn.buttons[i].about, burn.buttons[i].media)
      && next.buttons[i].encoderProfile == FirstNamed(next.setup.profiles, burn.buttons[i].encoderProfile.value.name)
      && !next.buttons[i].useCutlist && !next.buttons[i].editedDetails && next.buttons[i].thumbList == []
  {
    forall i | 0 <= i < |burn.buttons|
      ensures burn.buttons[i].encoderProfile.Some? && burn.setup.Knows(burn.buttons[i].encoderProfile)
    {
      burn.InBoth(burn.buttons[i]);
    }
    burn.SaveConfiguration(table);
    next.ShowSaved(table);
  }
}
