/** The selectors that add recordings, videos and files to the shared item list, and the
    reconciliation of that list with a selection. */
module Selecting {
  import opened ArchiveItems
  import opened Paths

  /** The item list, shared by the burn screen and the selectors it opens. */
  class ItemList {
    var items: seq<ArchiveItem>

    constructor ()
      ensures items == []
    {
      items := [];
    }
  }

  /** A line a selector can offer. */
  datatype Entry =
    | Program(title: string, subtitle: string, description: string, startDate: string, startTime: string,
              filesize: int, url: string, cutlistFlag: bool)
    | VideoEntry(title: string, plot: string, size: int, path: string)
    | FileEntry(path: string, size: int, onDisk: bool)
  {
    function Filename(): string {
      if Program? then url else path
    }

    /** A selected file that is no longer on disk is passed over. */
    predicate Addable() {
      FileEntry? ==> onDisk
    }

    /** What the list comes to say of an entry that is added. */
    predicate Becomes(a: About) {
      match this
      case Program(_, _, _, _, _, _, _, _) =>
        && a.itemType == "Recording" && a.filename == url
        && a.title == title && a.subtitle == subtitle && a.description == description
        && a.startDate == startDate && a.startTime == startTime
        && a.size == filesize && a.hasCutlist == cutlistFlag
      case VideoEntry(_, _, _, _) =>
        && a.itemType == "Video" && a.filename == path
        && a.title == title && a.subtitle == "" && a.description == plot
        && a.startDate == "" && a.startTime == ""
        && a.size == size && !a.hasCutlist
      case FileEntry(_, _, _) =>
        && a.itemType == "File" && a.filename == path
        && a.title == BaseName(path) && a.subtitle == "" && a.description == ""
        && a.startDate == "" && a.startTime == ""
        && a.size == size && !a.hasCutlist
    }

    /** It is what a selector of that type offers. */
    predicate OfKind(kind: string) {
      match this
      case Program(_, _, _, _, _, _, _, _) => kind == "Recording"
      case VideoEntry(_, _, _, _) => kind == "Video"
      case FileEntry(_, _, _) => kind == "File"
    }

    function NewItem(): About {
      match this
      case Program(title, subtitle, description, startDate, startTime, filesize, url, cutlistFlag) =>
        About("Recording", title, subtitle, description, startDate, startTime, filesize, url, cutlistFlag)
      case VideoEntry(title, plot, size, path) => About("Video", title, "", plot, "", "", size, path, false)
      case FileEntry(path, size, _) => About("File", BaseName(path), "", "", "", "", size, path, false)
    }
  }

  // ----- what a recording selector offers ---------------------------------------------------

  datatype Recording = Recording(title: string, url: string, recgroup: string) {
    /** A recording that is streamed from elsewhere, live or deleted cannot be archived. */
    predicate Local() {
      !("myth://" <= url) && recgroup != "LiveTV" && recgroup != "Deleted"
    }
  }

  function LocalOnly(all: seq<Recording>): seq<Recording> {
    if |all| == 0 then []
    else
      var before := LocalOnly(all[..|all| - 1]);
      if all[|all| - 1].Local() then before + [all[|all| - 1]] else before
  }

  lemma {:induction false} LocalMembers(all: seq<Recording>, r: Recording)
    ensures r in LocalOnly(all) <==>
      r in all && !("myth://" <= r.url) && r.recgroup != "LiveTV" && r.recgroup != "Deleted"
  {
    if |all| > 0 {
      assert all == all[..|all| - 1] + [all[|all| - 1]];
      LocalMembers(all[..|all| - 1], r);
    }
  }

  /** What is left of a beginning of the list is a beginning of what is left of it. */
  lemma {:induction false} LocalInOrder(all: seq<Recording>, n: nat)
    requires n <= |all|
    ensures LocalOnly(all[..n]) <= LocalOnly(all)
  {
    if n < |all| {
      assert all[..|all| - 1][..n] == all[..n];
      LocalInOrder(all[..|all| - 1], n);
    } else {
      assert all[..n] == all;
    }
  }

  /** Erases what cannot be archived from the list while walking it, and collects the titles
      of what is left, each once. */
  method GetRecordingList(all: seq<Recording>) returns (list: seq<Recording>, categories: seq<string>)
    ensures list == LocalOnly(all)
    ensures forall r :: r in list <==>
      r in all && !("myth://" <= r.url) && r.recgroup != "LiveTV" && r.recgroup != "Deleted"
    ensures forall i, j | 0 <= i < j < |categories| :: categories[i] != categories[j]
    ensures forall t :: t in categories <==> exists r | r in list :: r.title == t
  {
    list, categories := all, [];
    var i := 0;
    ghost var seen := 0;
    while i < |list|
      invariant 0 <= i <= |list| && 0 <= seen <= |all|
      invariant list[..i] == LocalOnly(all[..seen]) && list[i..] == all[seen..]
      invariant forall k, j | 0 <= k < j < |categories| :: categories[k] != categories[j]
      invariant forall t :: t in categories <==> exists r | r in list[..i] :: r.title == t
      decreases |list| - i
    {
      var p := list[i];
      assert p == all[seen] && all[..seen + 1][..seen] == all[..seen];
      if !p.Local() {
        ghost var before := list;
        list := list[..i] + list[i + 1..];
        assert list[..i] == before[..i] && list[i..] == all[seen + 1..];
      } else {
        if p.title !in categories {
          categories := categories + [p.title];
        }
        assert list[..i + 1] == list[..i] + [p];
        i := i + 1;
      }
      seen := seen + 1;
    }
    assert all[..seen] == all && list[..i] == list;
    forall r {
      LocalMembers(all, r);
    }
  }

  predicate Selects(selected: seq<Entry>, filename: string) {
    exists e | e in selected :: e.Filename() == filename
  }

  predicate Listed(items: seq<About>, filename: string) {
    exists a | a in items :: a.filename == filename
  }

  /** An item stays on the list when it is of another type or still selected; with nothing
      selected the search for it never succeeds, whatever its type. */
  predicate Keeps(kind: string, selected: seq<Entry>, a: About) {
    |selected| > 0 && (a.itemType != kind || Selects(selected, a.filename))
  }

  function Kept(items: seq<About>, kind: string, selected: seq<Entry>): seq<About> {
    if |items| == 0 then []
    else
      var last := items[|items| - 1];
      var before := Kept(items[..|items| - 1], kind, selected);
      if Keeps(kind, selected, last) then before + [last] else before
  }

  function Added(kept: seq<About>, selected: seq<Entry>): seq<About> {
    if |selected| == 0 then []
    else
      var e := selected[|selected| - 1];
      var before := Added(kept, selected[..|selected| - 1]);
      if !Listed(kept, e.Filename()) && e.Addable() then before + [e.NewItem()] else before
  }

  /** The list after a selection is confirmed. */
  function Reconciled(items: seq<About>, kind: string, selected: seq<Entry>): seq<About> {
    var kept := Kept(items, kind, selected);
    kept + Added(kept, selected)
  }

  /** The first entry offered for a file name. */
  function FirstFor(source: seq<Entry>, filename: string): (r: Option<Entry>)
    ensures r == None <==> !Selects(source, filename)
    ensures r.Some? ==> r.value in source && exists i | 0 <= i < |source| ::
      && source[i] == r.value && r.value.Filename() == filename
      && forall j | 0 <= j < i :: source[j].Filename() != filename
  {
    if |source| == 0 then None
    else if source[0].Filename() == filename then Some(source[0])
    else FirstFor(source[1..], filename)
  }

  /** The selection a selector opens with: the entries of the items already listed. */
  function Seeded(items: seq<About>, source: seq<Entry>): seq<Entry> {
    if |items| == 0 then []
    else WithFirst(Seeded(items[..|items| - 1], source), FirstFor(source, items[|items| - 1].filename))
  }

  function WithFirst(s: seq<Entry>, first: Option<Entry>): seq<Entry> {
    match first
    case Some(e) => if e in s then s else s + [e]
    case None => s
  }

  /** Selecting an entry again takes it off where it stands first. */
  function Toggled(selected: seq<Entry>, e: Entry): seq<Entry> {
    if |selected| == 0 then [e]
    else if selected[0] == e then selected[1..]
    else [selected[0]] + Toggled(selected[1..], e)
  }

  /** The selection after some entries have been picked in turn. */
  function Picked(selected: seq<Entry>, picks: seq<Entry>): seq<Entry> {
    if |picks| == 0 then selected else Toggled(Picked(selected, picks[..|picks| - 1]), picks[|picks| - 1])
  }

  lemma {:induction false} ToggledAt(selected: seq<Entry>, e: Entry, i: nat)
    requires i <= |selected| && e !in selected[..i] && (i < |selected| ==> selected[i] == e)
    ensures Toggled(selected, e) == if i < |selected| then selected[..i] + selected[i + 1..] else selected + [e]
  {
    if i > 0 {
      assert selected[0] in selected[..i];
      assert selected[1..][..i - 1] == selected[..i][1..];
      ToggledAt(selected[1..], e, i - 1);
    }
  }

  /** Picking an entry that is not selected, and picking it again, leaves the selection as it was. */
  lemma {:induction false} PickedTwice(selected: seq<Entry>, e: Entry)
    requires e !in selected
    ensures Picked(selected, [e, e]) == selected
  {
    assert [e, e][..1] == [e] && [e][..0] == [];
    assert Picked(selected, [e]) == Toggled(selected, e);
    assert selected[..|selected|] == selected && (selected + [e])[..|selected|] == selected;
    ToggledAt(selected, e, |selected|);
    ToggledAt(selected + [e], e, |selected|);
  }

  // ----- what confirming a selection does to the list ----------------------------------------------

  lemma {:induction false} KeptMembers(items: seq<About>, kind: string, selected: seq<Entry>, a: About)
    ensures a in Kept(items, kind, selected) <==> a in items && Keeps(kind, selected, a)
  {
    if |items| > 0 {
      KeptMembers(items[..|items| - 1], kind, selected, a);
      assert items == items[..|items| - 1] + [items[|items| - 1]];
    }
  }

  lemma {:induction false} AddedMembers(kept: seq<About>, selected: seq<Entry>, a: About)
    ensures a in Added(kept, selected) <==>
      exists e | e in selected :: e.Addable() && !Listed(kept, e.Filename()) && a == e.NewItem()
  {
    if |selected| > 0 {
      AddedMembers(kept, selected[..|selected| - 1], a);
      assert selected == selected[..|selected| - 1] + [selected[|selected| - 1]];
    }
  }

  /** Every selected entry that can be added is on the resulting list. */
  lemma SelectedIsListed(items: seq<About>, kind: string, selected: seq<Entry>, e: Entry)
    requires e in selected && e.Addable()
    ensures Listed(Reconciled(items, kind, selected), e.Filename())
  {
    var kept := Kept(items, kind, selected);
    if Listed(kept, e.Filename()) {
      var a :| a in kept && a.filename == e.Filename();
      assert a in Reconciled(items, kind, selected);
    } else {
      AddedMembers(kept, selected, e.NewItem());
      assert e.NewItem() in Reconciled(items, kind, selected);
    }
  }

  /** Each selected entry in turn adds one item that says of it what an item should, unless
      its file name is on the list or its file is gone. */
  lemma AddedOneByOne(kept: seq<About>, selected: seq<Entry>, n: nat)
    requires n < |selected|
    ensures var e, before, after := selected[n], Added(kept, selected[..n]), Added(kept, selected[..n + 1]);
      if Listed(kept, e.Filename()) || (e.FileEntry? && !e.onDisk) then after == before
      else |after| == |before| + 1 && before <= after && e.Becomes(after[|before|])
  {
    assert selected[..n + 1][..n] == selected[..n];
  }

  /** The list describes each selected entry that can be added, field by field, if its file
      name was not kept. */
  ghost predicate TakesOver(items: seq<About>, kept: seq<About>, selected: seq<Entry>) {
    forall e | e in selected && (e.FileEntry? ==> e.onDisk) && !Listed(kept, e.Filename()) ::
      exists a | a in items :: e.Becomes(a)
  }

  lemma ReconciledTakesOver(items: seq<About>, kind: string, selected: seq<Entry>)
    ensures TakesOver(Reconciled(items, kind, selected), Kept(items, kind, selected), selected)
  {
    var kept := Kept(items, kind, selected);
    forall e | e in selected && (e.FileEntry? ==> e.onDisk) && !Listed(kept, e.Filename())
      ensures exists a | a in Reconciled(items, kind, selected) :: e.Becomes(a)
    {
      AddedMembers(kept, selected, e.NewItem());
      assert e.Becomes(e.NewItem()) && e.NewItem() in Reconciled(items, kind, selected);
    }
  }

  /** An entry that a selector has just added is off the list again once it is taken off the
      selection, with another entry still selected. */
  lemma AddedThenDeselected(items: seq<About>, kind: string, selected: seq<Entry>, e: Entry, rest: seq<Entry>)
    requires forall x | x in selected :: x.OfKind(kind)
    requires e in selected && (e.FileEntry? ==> e.onDisk)
    requires !Listed(Kept(items, kind, selected), e.Filename())
    requires |rest| > 0 && !Selects(rest, e.Filename())
    ensures var first := Reconciled(items, kind, selected);
      Listed(first, e.Filename()) && !Listed(Reconciled(first, kind, rest), e.Filename())
  {
    var first := Reconciled(items, kind, selected);
    SelectedIsListed(items, kind, selected, e);
    forall a | a in Reconciled(first, kind, rest)
      ensures a.filename != e.Filename()
    {
      KeptMembers(first, kind, rest, a);
      AddedMembers(Kept(first, kind, rest), rest, a);
      AddedMembers(Kept(items, kind, selected), selected, a);
    }
  }

  /** Nothing of the selector's own type is left that is not selected. */
  lemma OwnTypeIsSelected(items: seq<About>, kind: string, selected: seq<Entry>, a: About)
    requires a in Reconciled(items, kind, selected) && a.itemType == kind
    ensures Selects(selected, a.filename)
  {
    var kept := Kept(items, kind, selected);
    KeptMembers(items, kind, selected, a);
    AddedMembers(kept, selected, a);
  }

  ghost predicate DistinctNames(items: seq<About>) {
    forall i, j | 0 <= i < j < |items| :: items[i].filename != items[j].filename
  }

  ghost predicate DistinctEntries(entries: seq<Entry>) {
    forall i, j | 0 <= i < j < |entries| :: entries[i].Filename() != entries[j].Filename()
  }

  lemma {:induction false} KeptDistinct(items: seq<About>, kind: string, selected: seq<Entry>)
    requires DistinctNames(items)
    ensures DistinctNames(Kept(items, kind, selected))
  {
    if |items| > 0 {
      var front := items[..|items| - 1];
      KeptDistinct(front, kind, selected);
      forall a | a in Kept(front, kind, selected) ensures a.filename != items[|items| - 1].filename {
        KeptMembers(front, kind, selected, a);
      }
    }
  }

  lemma {:induction false} AddedDistinct(kept: seq<About>, selected: seq<Entry>)
    requires DistinctEntries(selected)
    ensures DistinctNames(Added(kept, selected))
    ensures forall a | a in Added(kept, selected) :: !Listed(kept, a.filename)
  {
    if |selected| > 0 {
      var front := selected[..|selected| - 1];
      AddedDistinct(kept, front);
      forall a | a in Added(kept, front) ensures a.filename != selected[|selected| - 1].Filename() {
        AddedMembers(kept, front, a);
      }
    }
  }

  /** A list without repeated file names gets none from a selection without repeated file names. */
  lemma ReconciledDistinct(items: seq<About>, kind: string, selected: seq<Entry>)
    requires DistinctNames(items) && DistinctEntries(selected)
    ensures DistinctNames(Reconciled(items, kind, selected))
  {
    var kept := Kept(items, kind, selected);
    KeptDistinct(items, kind, selected);
    AddedDistinct(kept, selected);
    forall i, j | 0 <= i < |kept| && 0 <= j < |Added(kept, selected)|
      ensures kept[i].filename != Added(kept, selected)[j].filename
    {
      assert Added(kept, selected)[j] in Added(kept, selected) && kept[i] in kept;
    }
  }

  /** A selection made only from what a selector offers, with nothing twice. */
  ghost predicate TakenFrom(selected: seq<Entry>, source: seq<Entry>) {
    && (forall i | 0 <= i < |selected| :: selected[i] in source)
    && (forall i, j | 0 <= i < j < |selected| :: selected[i] != selected[j])
  }

  lemma {:induction false} SeededTakenFrom(items: seq<About>, source: seq<Entry>)
    ensures TakenFrom(Seeded(items, source), source)
  {
    if |items| > 0 {
      SeededTakenFrom(items[..|items| - 1], source);
    }
  }

  lemma {:induction false} ToggledTakenFrom(selected: seq<Entry>, source: seq<Entry>, e: Entry)
    requires TakenFrom(selected, source) && e in source
    ensures TakenFrom(Toggled(selected, e), source)
    ensures forall x | x in Toggled(selected, e) :: x in selected || x == e
  {
    if |selected| > 0 && selected[0] != e {
      ToggledTakenFrom(selected[1..], source, e);
      assert selected[0] !in selected[1..];
    }
  }

  lemma {:induction false} PickedTakenFrom(selected: seq<Entry>, source: seq<Entry>, picks: seq<Entry>)
    requires TakenFrom(selected, source) && forall i | 0 <= i < |picks| :: picks[i] in source
    ensures TakenFrom(Picked(selected, picks), source)
  {
    if |picks| > 0 {
      PickedTakenFrom(selected, source, picks[..|picks| - 1]);
      ToggledTakenFrom(Picked(selected, picks[..|picks| - 1]), source, picks[|picks| - 1]);
    }
  }

  lemma TakenFromDistinct(selected: seq<Entry>, source: seq<Entry>)
    requires DistinctEntries(source) && TakenFrom(selected, source)
    ensures DistinctEntries(selected)
  {
    forall i, j | 0 <= i < j < |selected|
      ensures selected[i].Filename() != selected[j].Filename()
    {
      var a :| 0 <= a < |source| && source[a] == selected[i];
      var b :| 0 <= b < |source| && source[b] == selected[j];
      assert a < b || b < a;
    }
  }

  /** Whatever is picked from what a selector offers, a list without repeated file names gets
      none, if the selector offers none. */
  lemma SelectorKeepsDistinct(items: seq<About>, kind: string, source: seq<Entry>, picks: seq<Entry>)
    requires DistinctNames(items) && DistinctEntries(source)
    requires forall i | 0 <= i < |picks| :: picks[i] in source
    ensures DistinctNames(Reconciled(items, kind, Picked(Seeded(items, source), picks)))
  {
    SeededTakenFrom(items, source);
    PickedTakenFrom(Seeded(items, source), source, picks);
    TakenFromDistinct(Picked(Seeded(items, source), picks), source);
    ReconciledDistinct(items, kind, Picked(Seeded(items, source), picks));
  }

  /** A recording selector that is confirmed with nothing selected takes a video off the list. */
  lemma EmptySelectionDropsVideo(video: About)
    requires video.itemType == "Video"
    ensures Reconciled([video], "Recording", []) == []
  {
    assert Kept([video], "Recording", []) == [];
  }

  /** The items of other types all survive exactly when something is selected, or there are none. */
  lemma OtherTypesSurviveIff(items: seq<About>, kind: string, selected: seq<Entry>)
    ensures (forall a | a in items && a.itemType != kind :: a in Kept(items, kind, selected))
      <==> |selected| > 0 || forall a | a in items :: a.itemType == kind
  {
    forall a | a in items
      ensures a in Kept(items, kind, selected) <==> Keeps(kind, selected, a)
    {
      KeptMembers(items, kind, selected, a);
    }
  }

  // ----- opening a selector and confirming it unchanged -----------------------------------------------

  lemma {:induction false} SeededSelects(items: seq<About>, source: seq<Entry>, filename: string)
    ensures Selects(Seeded(items, source), filename) <==> Listed(items, filename) && Selects(source, filename)
  {
    if |items| > 0 {
      var front, last := items[..|items| - 1], items[|items| - 1];
      assert items == front + [last];
      SeededSelects(front, source, filename);
      SeededSelects(front, source, last.filename);
      var s := Seeded(front, source);
      match FirstFor(source, last.filename)
      case Some(e) =>
        assert e in s + [e];
        assert forall x | x in s + [e] :: x in s || x == e;
        assert Listed(items, filename) <==> Listed(front, filename) || last.filename == filename;
      case None =>
        assert Listed(items, filename) <==> Listed(front, filename) || last.filename == filename;
    }
  }

  /** The opening selection follows the order of the list. */
  lemma {:induction false} SeededInOrder(items: seq<About>, source: seq<Entry>, n: nat)
    requires n <= |items|
    ensures Seeded(items[..n], source) <= Seeded(items, source)
  {
    if n < |items| {
      assert items[..|items| - 1][..n] == items[..n];
      SeededInOrder(items[..|items| - 1], source, n);
    } else {
      assert items[..n] == items;
    }
  }

  lemma {:induction false} AllKept(items: seq<About>, kind: string, selected: seq<Entry>)
    requires forall a | a in items :: Keeps(kind, selected, a)
    ensures Kept(items, kind, selected) == items
  {
    if |items| > 0 {
      AllKept(items[..|items| - 1], kind, selected);
    }
  }

  lemma {:induction false} NoneAdded(kept: seq<About>, selected: seq<Entry>)
    requires forall e | e in selected :: Listed(kept, e.Filename())
    ensures Added(kept, selected) == []
  {
    if |selected| > 0 {
      NoneAdded(kept, selected[..|selected| - 1]);
    }
  }

  /** Opening and confirming a selector may leave the list alone: it is empty, or something
      on it was selected and every item of the selector's type is still offered. */
  predicate StillOffered(items: seq<About>, kind: string, source: seq<Entry>) {
    || items == []
    || (|Seeded(items, source)| > 0 && forall a | a in items && a.itemType == kind :: Selects(source, a.filename))
  }

  /** Confirming the selection a selector opens with leaves the list as it was exactly when
      the list is empty, or something was selected to begin with and every item of the
      selector's type is still among what it offers. */
  lemma ReopenIsIdentityIff(items: seq<About>, kind: string, source: seq<Entry>)
    ensures Reconciled(items, kind, Seeded(items, source)) == items <==> StillOffered(items, kind, source)
  {
    var selected := Seeded(items, source);
    var kept := Kept(items, kind, selected);
    forall a | a in items
      ensures Keeps(kind, selected, a) <==> |selected| > 0 && (a.itemType != kind || Selects(source, a.filename))
    {
      SeededSelects(items, source, a.filename);
    }
    forall e | e in selected
      ensures Listed(kept, e.Filename())
    {
      SeededSelects(items, source, e.Filename());
      assert Selects(selected, e.Filename());
      var a :| a in items && a.filename == e.Filename();
      KeptMembers(items, kind, selected, a);
    }
    NoneAdded(kept, selected);
    if forall a | a in items :: Keeps(kind, selected, a) {
      AllKept(items, kind, selected);
    } else {
      var a :| a in items && !Keeps(kind, selected, a);
      KeptMembers(items, kind, selected, a);
    }
  }

  // ----- lists edited in place ---------------------------------------------------------------------------

  /** The list without the members of another. */
  function Without<T(==)>(s: seq<T>, gone: seq<T>): seq<T> {
    if |s| == 0 then []
    else
      var front, last := s[..|s| - 1], s[|s| - 1];
      if last in gone then Without(front, gone) else Without(front, gone) + [last]
  }

  lemma {:induction false} WithoutMembers<T>(s: seq<T>, gone: seq<T>, x: T)
    ensures x in Without(s, gone) <==> x in s && x !in gone
  {
    if |s| > 0 {
      assert s == s[..|s| - 1] + [s[|s| - 1]];
      WithoutMembers(s[..|s| - 1], gone, x);
    }
  }

  lemma {:induction false} WithoutOneMore<T>(s: seq<T>, gone: seq<T>, x: T)
    ensures Without(Without(s, gone), [x]) == Without(s, gone + [x])
  {
    if |s| > 0 {
      var front, last := s[..|s| - 1], s[|s| - 1];
      WithoutOneMore(front, gone, x);
      assert last in gone + [x] <==> last in gone || last == x;
      if last !in gone {
        var w := Without(s, gone);
        assert w[..|w| - 1] == Without(front, gone) && w[|w| - 1] == last;
      }
    }
  }

  lemma {:induction false} WithoutNone<T>(s: seq<T>)
    ensures Without(s, []) == s
  {
    if |s| > 0 {
      WithoutNone(s[..|s| - 1]);
    }
  }

  /** Removing the members of a list one value at a time. */
  method RemoveEach<T(==)>(s: seq<T>, gone: seq<T>) returns (r: seq<T>)
    ensures r == Without(s, gone)
  {
    r := s;
    WithoutNone(s);
    for x := 0 to |gone|
      invariant r == Without(s, gone[..x])
    {
      WithoutOneMore(s, gone[..x], gone[x]);
      assert gone[..x + 1] == gone[..x] + [gone[x]];
      r := Without(r, [gone[x]]);
    }
    assert gone[..|gone|] == gone;
  }

  ghost function Abouts(items: seq<ArchiveItem>): seq<About>
    reads items
  {
    seq(|items|, i requires 0 <= i < |items| reads items => items[i].about)
  }

  /** The item objects that stay on the list, in their order. */
  ghost function KeptObjects(items: seq<ArchiveItem>, kind: string, selected: seq<Entry>): seq<ArchiveItem>
    reads items
  {
    if |items| == 0 then []
    else
      var last := items[|items| - 1];
      var before := KeptObjects(items[..|items| - 1], kind, selected);
      if Keeps(kind, selected, last.about) then before + [last] else before
  }

  ghost predicate DistinctObjects(items: seq<ArchiveItem>) {
    forall i, j | 0 <= i < j < |items| :: items[i] != items[j]
  }

  lemma {:induction false} KeptObjectsFrom(items: seq<ArchiveItem>, kind: string, selected: seq<Entry>)
    ensures forall a | a in KeptObjects(items, kind, selected) :: a in items
    ensures DistinctObjects(items) ==> DistinctObjects(KeptObjects(items, kind, selected))
  {
    if |items| > 0 {
      var front, last := items[..|items| - 1], items[|items| - 1];
      KeptObjectsFrom(front, kind, selected);
      assert items == front + [last];
      assert DistinctObjects(items) ==> DistinctObjects(front) && last !in front;
    }
  }

  lemma {:induction false} KeptObjectsAre(items: seq<ArchiveItem>, removed: seq<ArchiveItem>,
                                          kind: string, selected: seq<Entry>)
    requires forall a | a in items :: a in removed <==> !Keeps(kind, selected, a.about)
    ensures Without(items, removed) == KeptObjects(items, kind, selected)
    ensures Abouts(KeptObjects(items, kind, selected)) == Kept(Abouts(items), kind, selected)
  {
    if |items| > 0 {
      var front, last := items[..|items| - 1], items[|items| - 1];
      KeptObjectsAre(front, removed, kind, selected);
      assert last in items;
      assert Abouts(items)[..|items| - 1] == Abouts(front);
      var kept := KeptObjects(front, kind, selected);
      assert Abouts(kept + [last]) == Abouts(kept) + [last.about];
    }
  }

  lemma {:induction false} AddedWithout(kept: seq<About>, selected: seq<Entry>, gone: seq<Entry>)
    requires forall e | e in selected :: e in gone <==> Listed(kept, e.Filename())
    ensures Added(kept, selected) == NewItems(Without(selected, gone))
  {
    if |selected| > 0 {
      var front, e := selected[..|selected| - 1], selected[|selected| - 1];
      AddedWithout(kept, front, gone);
      var left := Without(front, gone);
      assert e in selected;
      if e !in gone {
        var w := Without(selected, gone);
        assert w[..|w| - 1] == left && w[|w| - 1] == e;
      }
    }
  }

  function NewItems(entries: seq<Entry>): seq<About> {
    if |entries| == 0 then []
    else
      var e := entries[|entries| - 1];
      var before := NewItems(entries[..|entries| - 1]);
      if e.Addable() then before + [e.NewItem()] else before
  }

  class Selector {
    const kind: string
    const archive: ItemList
    const source: seq<Entry>
    var selected: seq<Entry>

    constructor (kind: string, archive: ItemList, source: seq<Entry>)
      ensures this.kind == kind && this.archive == archive && this.source == source
      ensures selected == Seeded(Abouts(archive.items), source)
    {
      this.kind, this.archive, this.source := kind, archive, source;
      selected := [];
      new;
      UpdateSelectedList();
    }

    method UpdateSelectedList()
      modifies this`selected
      ensures selected == Seeded(Abouts(archive.items), source)
    {
      selected := [];
      ghost var items := Abouts(archive.items);
      for x := 0 to |archive.items|
        invariant selected == Seeded(items[..x], source)
      {
        SelectFirst(archive.items[x].about.filename);
        assert items[..x + 1][..x] == items[..x];
      }
      assert items[..|archive.items|] == items;
    }

    /** Selects the first entry offered for a file name, unless it is selected already. */
    method SelectFirst(filename: string)
      modifies this`selected
      ensures selected == WithFirst(old(selected), FirstFor(source, filename))
    {
      var y := 0;
      while y < |source|
        invariant 0 <= y <= |source| && selected == old(selected)
        invariant FirstFor(source, filename) == FirstFor(source[y..], filename)
      {
        if source[y].Filename() == filename {
          if source[y] !in selected {
            selected := selected + [source[y]];
          }
          break;
        }
        y := y + 1;
      }
    }

    method ToggleSelected(e: Entry)
      modifies this`selected
      ensures selected == Toggled(old(selected), e)
    {
      var i := 0;
      while i < |selected| && selected[i] != e
        invariant 0 <= i <= |selected| && e !in selected[..i]
      {
        i := i + 1;
      }
      ToggledAt(selected, e, i);
      if i < |selected| {
        selected := selected[..i] + selected[i + 1..];
      } else {
        selected := selected + [e];
      }
    }

    /** The items that are neither of another type nor found among the selected entries. */
    method Deselected() returns (removed: seq<ArchiveItem>)
      ensures forall a | a in archive.items :: a in removed <==> !Keeps(kind, selected, a.about)
    {
      removed := [];
      for x := 0 to |archive.items|
        invariant forall a | a in removed :: !Keeps(kind, selected, a.about)
        invariant forall i | 0 <= i < x && !Keeps(kind, selected, archive.items[i].about) :: archive.items[i] in removed
      {
        var a := archive.items[x];
        var found := false;
        var y := 0;
        while y < |selected|
          invariant 0 <= y <= |selected| && !found
          invariant y > 0 ==> a.about.itemType == kind
          invariant forall e | e in selected[..y] :: e.Filename() != a.about.filename
        {
          if a.about.itemType != kind || a.about.filename == selected[y].Filename() {
            found := true;
            break;
          }
          y := y + 1;
        }
        assert found <==> Keeps(kind, selected, a.about) by {
          if !found {
            assert selected[..|selected|] == selected;
          } else {
            assert selected[y] in selected;
          }
        }
        if !found {
          removed := removed + [a];
        }
      }
    }

    /** The selected entries whose file is on the list already. */
    method AlreadyListed() returns (present: seq<Entry>)
      ensures forall e | e in selected :: e in present <==> Listed(Abouts(archive.items), e.Filename())
    {
      present := [];
      ghost var items := Abouts(archive.items);
      for x := 0 to |selected|
        invariant forall e | e in present :: Listed(items, e.Filename())
        invariant forall i | 0 <= i < x && Listed(items, selected[i].Filename()) :: selected[i] in present
      {
        var p := selected[x];
        var y := 0;
        while y < |archive.items|
          invariant 0 <= y <= |archive.items|
          invariant forall i | 0 <= i < y :: archive.items[i].about.filename != p.Filename()
          invariant forall e | e in present :: Listed(items, e.Filename())
          invariant forall i | 0 <= i < x && Listed(items, selected[i].Filename()) :: selected[i] in present
        {
          if archive.items[y].about.filename == p.Filename() {
            assert items[y] in items;
            present := present + [p];
            break;
          }
          y := y + 1;
        }
      }
    }

    /** What is left of the selection is appended as new, unprobed items. */
    method AppendSelected()
      modifies archive
      ensures old(archive.items) <= archive.items
      ensures forall i | |old(archive.items)| <= i < |archive.items| ::
        && fresh(archive.items[i])
        && archive.items[i].media == UNPROBED
        && archive.items[i].encoderProfile == None && !archive.items[i].useCutlist
      ensures DistinctObjects(old(archive.items)) ==> DistinctObjects(archive.items)
      ensures Abouts(archive.items) == old(Abouts(archive.items)) + NewItems(selected)
    {
      ghost var kept, keptAbouts := archive.items, Abouts(archive.items);
      for x := 0 to |selected|
        invariant kept <= archive.items
        invariant forall i | |kept| <= i < |archive.items| ::
          && fresh(archive.items[i])
          && archive.items[i].media == UNPROBED
          && archive.items[i].encoderProfile == None && !archive.items[i].useCutlist
        invariant DistinctObjects(kept) ==> DistinctObjects(archive.items)
        invariant Abouts(archive.items) == keptAbouts + NewItems(selected[..x])
      {
        var e := selected[x];
        assert selected[..x + 1][..x] == selected[..x];
        if e.Addable() {
          var a := new ArchiveItem(e.NewItem(), UNPROBED, None);
          ghost var before := archive.items;
          archive.items := archive.items + [a];
          assert Abouts(archive.items) == Abouts(before) + [a.about];
        }
      }
      assert selected[..|selected|] == selected;
    }

    /** Confirms the selection: the kept items are the same objects in the same order, and
        each entry still selected and not listed is appended as a new item. */
    method OKPressed()
      modifies this`selected, archive
      ensures Abouts(archive.items) == Reconciled(old(Abouts(archive.items)), kind, old(selected))
      ensures TakesOver(Abouts(archive.items), Kept(old(Abouts(archive.items)), kind, old(selected)), old(selected))
      ensures old(KeptObjects(archive.items, kind, selected)) <= archive.items
      ensures forall i | |old(KeptObjects(archive.items, kind, selected))| <= i < |archive.items| ::
        && fresh(archive.items[i])
        && archive.items[i].media == UNPROBED
        && archive.items[i].encoderProfile == None && !archive.items[i].useCutlist
      ensures DistinctObjects(old(archive.items)) ==> DistinctObjects(archive.items)
      ensures forall i | 0 <= i < |old(KeptObjects(archive.items, kind, selected))| ::
        archive.items[i] in old(archive.items)
    {
      var items := archive.items;
      ghost var chosen := selected;
      ghost var olds := Abouts(items);
      ghost var kept := Kept(olds, kind, chosen);
      var removed := Deselected();
      var left := RemoveEach(items, removed);
      assert Abouts(items) == olds;
      KeptObjectsAre(items, removed, kind, selected);
      KeptObjectsFrom(items, kind, selected);
      assert Abouts(left) == kept;
      assert forall i | 0 <= i < |left| :: left[i] in items;
      archive.items := left;
      assert Abouts(left) == kept;
      var present := AlreadyListed();
      AddedWithout(kept, chosen, present);
      selected := RemoveEach(selected, present);
      assert Abouts(archive.items) == kept && NewItems(selected) == Added(kept, chosen);
      AppendSelected();
      ReconciledTakesOver(olds, kind, chosen);
    }
  }

  lemma {:induction false} AllObjectsKept(items: seq<ArchiveItem>, kind: string, selected: seq<Entry>)
    requires forall a | a in items :: Keeps(kind, selected, a.about)
    ensures KeptObjects(items, kind, selected) == items
  {
    if |items| > 0 {
      AllObjectsKept(items[..|items| - 1], kind, selected);
    }
  }

  lemma OfferedObjectsKept(items: seq<ArchiveItem>, kind: string, source: seq<Entry>)
    requires StillOffered(Abouts(items), kind, source)
    ensures KeptObjects(items, kind, Seeded(Abouts(items), source)) == items
  {
    var abouts := Abouts(items);
    forall a | a in items
      ensures Keeps(kind, Seeded(abouts, source), a.about)
    {
      var i :| 0 <= i < |items| && items[i] == a;
      assert abouts[i] in abouts;
      SeededSelects(abouts, source, a.about.filename);
    }
    AllObjectsKept(items, kind, Seeded(abouts, source));
  }

  /** Opens a selector on a list, picks some entries and confirms. */
  method UseSelector(kind: string, archive: ItemList, source: seq<Entry>, picks: seq<Entry>)
    modifies archive
    ensures var abouts := old(Abouts(archive.items));
      Abouts(archive.items) == Reconciled(abouts, kind, Picked(Seeded(abouts, source), picks))
    ensures var kept := old(KeptObjects(archive.items, kind, Picked(Seeded(Abouts(archive.items), source), picks)));
      && kept <= archive.items
      && (forall i | 0 <= i < |kept| :: archive.items[i] in old(archive.items))
      && forall i | |kept| <= i < |archive.items| ::
           && fresh(archive.items[i])
           && archive.items[i].media == UNPROBED
           && archive.items[i].encoderProfile == None && !archive.items[i].useCutlist
    ensures DistinctObjects(old(archive.items)) ==> DistinctObjects(archive.items)
  {
    ghost var seeded := Seeded(Abouts(archive.items), source);
    var selector := new Selector(kind, archive, source);
    for k := 0 to |picks|
      invariant archive.items == old(archive.items)
      invariant fresh(selector) && selector.archive == archive && selector.kind == kind
      invariant selector.selected == Picked(seeded, picks[..k])
    {
      selector.ToggleSelected(picks[k]);
      assert picks[..k + 1][..k] == picks[..k];
    }
    assert picks[..|picks|] == picks;
    selector.OKPressed();
  }

  /** Opening a selector and confirming it unchanged leaves the list with the very same item
      objects exactly when every item of its type is still offered, as above. */
  method ConfirmUnchanged(kind: string, archive: ItemList, source: seq<Entry>)
    modifies archive
    ensures archive.items == old(archive.items) <==> StillOffered(old(Abouts(archive.items)), kind, source)
  {
    ghost var items, abouts := archive.items, Abouts(archive.items);
    ReopenIsIdentityIff(abouts, kind, source);
    if StillOffered(abouts, kind, source) {
      OfferedObjectsKept(items, kind, source);
    }
    UseSelector(kind, archive, source, []);
    assert Abouts(items) == abouts;
  }
}
