/** Archiving a video with its genre, country and category names, and restoring it into a
    store that numbers those names in its own way. */
module VideoArchive {
  import opened ArchiveItems
  import opened Dom
  import opened TimeText

  /** A name and the number it goes by in one store. */
  datatype NameRow = NameRow(id: nat, name: string)

  /** A video's link to a numbered name. */
  datatype Link = Link(video: nat, id: nat)

  datatype VideoRow = VideoRow(id: nat, filename: string, category: nat)

  // ----- tables of names ---------------------------------------------------------------------

  function IdOf(rows: seq<NameRow>, name: string): (r: Option<nat>)
    ensures r == None <==> forall i | 0 <= i < |rows| :: rows[i].name != name
    ensures r.Some? ==> NameRow(r.value, name) in rows
  {
    if |rows| == 0 then None
    else if rows[0].name == name then Some(rows[0].id)
    else IdOf(rows[1..], name)
  }

  function NameOf(rows: seq<NameRow>, id: nat): (r: Option<string>)
    ensures r == None <==> forall i | 0 <= i < |rows| :: rows[i].id != id
    ensures r.Some? ==> NameRow(id, r.value) in rows
  {
    if |rows| == 0 then None
    else if rows[0].id == id then Some(rows[0].name)
    else NameOf(rows[1..], id)
  }

  ghost predicate DistinctIds(rows: seq<NameRow>) {
    forall i, j | 0 <= i < j < |rows| :: rows[i].id != rows[j].id
  }

  ghost predicate DistinctNames(rows: seq<NameRow>) {
    forall i, j | 0 <= i < j < |rows| :: rows[i].name != rows[j].name
  }

  lemma NameOfMember(rows: seq<NameRow>, row: NameRow)
    requires DistinctIds(rows) && row in rows
    ensures NameOf(rows, row.id) == Some(row.name)
  {
    assert NameRow(row.id, NameOf(rows, row.id).value) in rows;
  }

  /** Numbers already given keep their meaning when a table grows. */
  lemma NameOfLonger(rows: seq<NameRow>, more: seq<NameRow>, id: nat)
    requires DistinctIds(more) && rows <= more && NameOf(rows, id).Some?
    ensures NameOf(more, id) == NameOf(rows, id)
  {
    var row := NameRow(id, NameOf(rows, id).value);
    assert row in more;
    NameOfMember(more, row);
  }

  /** A table of names, numbered automatically from 1. */
  class NameTable {
    var rows: seq<NameRow>
    var next: nat

    constructor ()
      ensures Valid() && rows == []
    {
      rows, next := [], 1;
    }

    ghost predicate Valid()
      reads this
    {
      && next > 0 && DistinctIds(rows)
      && forall i | 0 <= i < |rows| :: 0 < rows[i].id < next
    }

    /** Finds a name's number, giving it the next one if it has none. */
    method FindOrInsert(name: string) returns (id: nat)
      requires Valid()
      modifies this
      ensures Valid() && next >= old(next)
      ensures old(rows) <= rows && NameOf(rows, id) == Some(name) && 0 < id < next
      ensures |rows| == |old(rows)| + (if IdOf(old(rows), name) == None then 1 else 0)
      ensures forall i | |old(rows)| <= i < |rows| :: rows[i].id >= old(next)
      ensures DistinctNames(old(rows)) ==> DistinctNames(rows)
    {
      var found := IdOf(rows, name);
      if found.Some? {
        id := found.value;
      } else {
        rows := rows + [NameRow(next, name)];
        next := next + 1;
        assert rows[|rows| - 1].name == name;
        id := IdOf(rows, name).value;
      }
      NameOfMember(rows, NameRow(id, name));
    }
  }

  /** The numbers a video is linked to, in order. */
  function IdsOf(links: seq<Link>, video: nat): seq<nat> {
    if |links| == 0 then []
    else
      var before := IdsOf(links[..|links| - 1], video);
      if links[|links| - 1].video == video then before + [links[|links| - 1].id] else before
  }

  /** The names behind some numbers; a number without a name has no part in the join. */
  function NamesOf(rows: seq<NameRow>, ids: seq<nat>): seq<string> {
    if |ids| == 0 then []
    else
      var before := NamesOf(rows, ids[..|ids| - 1]);
      match NameOf(rows, ids[|ids| - 1])
      case Some(name) => before + [name]
      case None => before
  }

  lemma {:induction false} NamesOfLonger(rows: seq<NameRow>, more: seq<NameRow>, ids: seq<nat>)
    requires DistinctIds(more) && rows <= more
    requires forall i | 0 <= i < |ids| :: NameOf(rows, ids[i]).Some? || NameOf(more, ids[i]) == None
    ensures NamesOf(more, ids) == NamesOf(rows, ids)
  {
    if |ids| > 0 {
      NamesOfLonger(rows, more, ids[..|ids| - 1]);
      if NameOf(rows, ids[|ids| - 1]).Some? {
        NameOfLonger(rows, more, ids[|ids| - 1]);
      }
    }
  }

  // ----- names linked to videos --------------------------------------------------------------------

  class NameLinks {
    const names: NameTable
    var links: seq<Link>

    constructor (names: NameTable)
      requires names.Valid()
      ensures this.names == names && links == [] && Valid()
    {
      this.names, links := names, [];
    }

    /** No link has a number that was never given out. */
    ghost predicate Valid()
      reads this, names
    {
      names.Valid() && forall i | 0 <= i < |links| :: links[i].id < names.next
    }

    /** The names a video is linked to, through the join of both tables. */
    function NamesFor(video: nat): seq<string>
      reads this, names
    {
      NamesOf(names.rows, IdsOf(links, video))
    }

    /** Links a video to one more name. Nothing else that is linked changes its name. */
    method LinkName(video: nat, name: string)
      requires Valid()
      modifies this`links, names
      ensures Valid() && old(names.rows) <= names.rows
      ensures DistinctNames(old(names.rows)) ==> DistinctNames(names.rows)
      ensures exists id: nat :: links == old(links) + [Link(video, id)]
      ensures forall v: nat :: NamesFor(v) == old(NamesFor(v)) + (if v == video then [name] else [])
    {
      ghost var rows, next, given := names.rows, names.next, links;
      var id := names.FindOrInsert(name);
      links := links + [Link(video, id)];
      OneMoreLinkForAll(rows, names.rows, next, given, Link(video, id), name);
    }

    method LinkNames(video: nat, archived: seq<string>)
      requires Valid()
      modifies this`links, names
      ensures Valid() && old(names.rows) <= names.rows
      ensures DistinctNames(old(names.rows)) ==> DistinctNames(names.rows)
      ensures |links| == |old(links)| + |archived| && old(links) <= links
      ensures forall i | |old(links)| <= i < |links| :: links[i].video == video
      ensures forall v: nat :: NamesFor(v) == old(NamesFor(v)) + (if v == video then archived else [])
    {
      for x := 0 to |archived|
        invariant Valid() && old(names.rows) <= names.rows
        invariant DistinctNames(old(names.rows)) ==> DistinctNames(names.rows)
        invariant |links| == |old(links)| + x && old(links) <= links
        invariant forall i | |old(links)| <= i < |links| :: links[i].video == video
        invariant forall v: nat :: NamesFor(v) == old(NamesFor(v)) + (if v == video then archived[..x] else [])
      {
        LinkName(video, archived[x]);
        assert forall s: seq<string> :: s + archived[..x + 1] == s + archived[..x] + [archived[x]];
      }
      assert archived[..|archived|] == archived;
    }
  }

  /** A link to a known name adds it to its video; numbers that had a name keep it, and the
      number just given out had none. */
  lemma OneMoreLink(rows: seq<NameRow>, more: seq<NameRow>, next: nat, given: seq<Link>, link: Link,
                    name: string, v: nat)
    requires DistinctIds(more) && rows <= more
    requires forall i | |rows| <= i < |more| :: more[i].id >= next
    requires forall i | 0 <= i < |given| :: given[i].id < next
    requires NameOf(more, link.id) == Some(name)
    ensures NamesOf(more, IdsOf(given + [link], v))
      == NamesOf(rows, IdsOf(given, v)) + (if v == link.video then [name] else [])
  {
    var ids, all := IdsOf(given, v), given + [link];
    IdsAreLinked(given, v);
    forall i | 0 <= i < |ids|
      ensures NameOf(rows, ids[i]).Some? || NameOf(more, ids[i]) == None
    {
      assert ids[i] in ids && Link(v, ids[i]) in given;
      if NameOf(rows, ids[i]) == None {
        assert forall k | 0 <= k < |rows| :: more[k] == rows[k];
      }
    }
    NamesOfLonger(rows, more, ids);
    assert all[..|all| - 1] == given;
    assert (ids + [link.id])[..|ids + [link.id]| - 1] == ids;
  }

  lemma OneMoreLinkForAll(rows: seq<NameRow>, more: seq<NameRow>, next: nat, given: seq<Link>, link: Link, name: string)
    requires DistinctIds(more) && rows <= more
    requires forall i | |rows| <= i < |more| :: more[i].id >= next
    requires forall i | 0 <= i < |given| :: given[i].id < next
    requires NameOf(more, link.id) == Some(name)
    ensures forall v: nat ::
      NamesOf(more, IdsOf(given + [link], v))
      == NamesOf(rows, IdsOf(given, v)) + (if v == link.video then [name] else [])
  {
    forall v: nat
      ensures NamesOf(more, IdsOf(given + [link], v))
        == NamesOf(rows, IdsOf(given, v)) + (if v == link.video then [name] else [])
    {
      OneMoreLink(rows, more, next, given, link, name, v);
    }
  }

  lemma {:induction false} IdsAreLinked(links: seq<Link>, video: nat)
    ensures forall id | id in IdsOf(links, video) :: Link(video, id) in links
  {
    if |links| > 0 {
      IdsAreLinked(links[..|links| - 1], video);
      assert links == links[..|links| - 1] + [links[|links| - 1]];
    }
  }

  lemma {:induction false} UnlinkedHasNoIds(links: seq<Link>, video: nat)
    requires forall i | 0 <= i < |links| :: links[i].video != video
    ensures IdsOf(links, video) == []
  {
    if |links| > 0 {
      UnlinkedHasNoIds(links[..|links| - 1], video);
    }
  }

  // ----- the archive file -----------------------------------------------------------------------------

  /** The numbered names behind some numbers. */
  function Joined(rows: seq<NameRow>, ids: seq<nat>): seq<NameRow> {
    if |ids| == 0 then []
    else
      var before := Joined(rows, ids[..|ids| - 1]);
      match NameOf(rows, ids[|ids| - 1])
      case Some(name) => before + [NameRow(ids[|ids| - 1], name)]
      case None => before
  }

  function NameNodes(kind: Name, rows: seq<NameRow>): (r: seq<Node>)
    ensures |r| == |rows|
    ensures forall i | 0 <= i < |r| ::
      r[i] == Element(kind, map[Intid := Decimal(rows[i].id)][kind := rows[i].name], [])
  {
    seq(|rows|, i requires 0 <= i < |rows| =>
      Element(kind, map[Intid := Decimal(rows[i].id)][kind := rows[i].name], []))
  }

  /** The archive of a video: its own columns, its category if that has a name, and its
      countries and genres. */
  function Document(columns: Row, category: Option<NameRow>, countries: seq<NameRow>, genres: seq<NameRow>): Node {
    Element(Item, map[],
            VideoPart(columns) + CategoryPart(category)
            + ListPart(Countries, Country, countries) + ListPart(Genres, Genre, genres))
  }

  /** The names an archive lists below an element, if it has that element. */
  function ListedNames(children: seq<Node>, list: Name, kind: Name): seq<string> {
    var lists := ElementsByName(children, list);
    if |lists| < 1 || lists[0].Text? then []
    else NodeNames(ElementsByName(lists[0].children, kind), kind)
  }

  function NodeNames(nodes: seq<Node>, kind: Name): (r: seq<string>)
    ensures |r| == |nodes| && forall i | 0 <= i < |r| :: r[i] == Attribute(nodes[i], kind)
  {
    seq(|nodes|, i requires 0 <= i < |nodes| => Attribute(nodes[i], kind))
  }

  lemma {:induction false} JoinedNames(rows: seq<NameRow>, ids: seq<nat>, kind: Name)
    requires kind != Intid
    ensures NodeNames(NameNodes(kind, Joined(rows, ids)), kind) == NamesOf(rows, ids)
  {
    if |ids| > 0 {
      JoinedNames(rows, ids[..|ids| - 1], kind);
    }
  }

  function VideoPart(columns: Row): seq<Node> {
    [Element(Videometadata, map[], Fields(columns))]
  }

  function CategoryPart(category: Option<NameRow>): seq<Node> {
    if category.Some? then NameNodes(Category, [category.value]) else []
  }

  function ListPart(list: Name, kind: Name, rows: seq<NameRow>): seq<Node> {
    [Element(list, map[], NameNodes(kind, rows))]
  }

  lemma VideoPartLookup(columns: Row, name: Name)
    requires !name.Column?
    ensures ElementsByName(VideoPart(columns), name) == if name == Videometadata then VideoPart(columns) else []
  {
    ElementLookup(Element(Videometadata, map[], Fields(columns)), name);
    FieldLookup(columns, 0, name);
  }

  /** A list element is found by its own name, its entries by theirs. */
  lemma ListPartLookup(list: Name, kind: Name, rows: seq<NameRow>, name: Name)
    requires list != kind
    ensures ElementsByName(ListPart(list, kind, rows), name) ==
      if name == list then ListPart(list, kind, rows) else if name == kind then NameNodes(kind, rows) else []
  {
    ElementLookup(Element(list, map[], NameNodes(kind, rows)), name);
    LeavesLookup(NameNodes(kind, rows), kind, name);
  }

  lemma PartsLookup(columns: Row, category: Option<NameRow>, countries: seq<NameRow>, genres: seq<NameRow>)
    ensures var parts := Document(columns, category, countries, genres).children;
      && ElementsByName(parts, Videometadata) == VideoPart(columns)
      && ElementsByName(parts, Category) == CategoryPart(category)
      && ElementsByName(parts, Countries) == ListPart(Countries, Country, countries)
      && ElementsByName(parts, Genres) == ListPart(Genres, Genre, genres)
  {
    PartLookup(columns, category, countries, genres, Videometadata);
    PartLookup(columns, category, countries, genres, Category);
    PartLookup(columns, category, countries, genres, Countries);
    PartLookup(columns, category, countries, genres, Genres);
  }

  lemma PartLookup(columns: Row, category: Option<NameRow>, countries: seq<NameRow>, genres: seq<NameRow>, name: Name)
    requires !name.Column?
    ensures var parts := Document(columns, category, countries, genres).children;
      && (name == Videometadata ==> ElementsByName(parts, name) == VideoPart(columns))
      && (name == Category ==> ElementsByName(parts, name) == CategoryPart(category))
      && (name == Countries ==> ElementsByName(parts, name) == ListPart(Countries, Country, countries))
      && (name == Genres ==> ElementsByName(parts, name) == ListPart(Genres, Genre, genres))
  {
    VideoPartLookup(columns, name);
    LeavesLookup(CategoryPart(category), Category, name);
    ListPartLookup(Countries, Country, countries, name);
    ListPartLookup(Genres, Genre, genres, name);
    OnePart(VideoPart(columns), CategoryPart(category), ListPart(Countries, Country, countries),
            ListPart(Genres, Genre, genres), name);
  }

  /** What the importer finds in an archive is what the exporter put there. */
  lemma CategoryFound(columns: Row, category: Option<NameRow>, countries: seq<NameRow>, genres: seq<NameRow>)
    ensures ListedCategory(Document(columns, category, countries, genres).children)
      == if category.Some? then Some(category.value.name) else None
  {
    PartsLookup(columns, category, countries, genres);
  }

  lemma ListedAre(children: seq<Node>, list: Name, kind: Name, rows: seq<NameRow>)
    requires ElementsByName(children, list) == ListPart(list, kind, rows)
    ensures ListedNames(children, list, kind) == NodeNames(NameNodes(kind, rows), kind)
  {
    LeavesLookup(NameNodes(kind, rows), kind, kind);
  }

  // ----- the store ------------------------------------------------------------------------------------

  ghost predicate LinksBelow(links: seq<Link>, next: nat) {
    forall i | 0 <= i < |links| :: links[i].video < next
  }

  ghost predicate Numbered(videos: seq<VideoRow>, next: nat, categories: nat) {
    && (forall i | 0 <= i < |videos| :: videos[i].id < next && videos[i].category < categories)
    && (forall i, j | 0 <= i < j < |videos| :: videos[i].id != videos[j].id)
  }

  class VideoStore {
    var videos: seq<VideoRow>
    var next: nat
    const genres: NameLinks
    const countries: NameLinks
    const categories: NameTable

    constructor (genres: NameLinks, countries: NameLinks, categories: NameTable)
      ensures videos == [] && next == 1
      ensures this.genres == genres && this.countries == countries && this.categories == categories
    {
      videos, next := [], 1;
      this.genres, this.countries, this.categories := genres, countries, categories;
    }

    ghost function Parts(): set<object> {
      {this, genres, countries, genres.names, countries.names, categories}
    }

    /** Links lead only from videos that have been numbered, and categories are numbers given out. */
    ghost predicate Valid()
      reads Parts()
    {
      && genres != countries && genres.names != countries.names
      && genres.names != categories && countries.names != categories
      && genres.Valid() && countries.Valid() && categories.Valid()
      && LinksBelow(genres.links, next) && LinksBelow(countries.links, next)
      && Numbered(videos, next, categories.next)
    }

    /** The category of a video, if its number has a name. */
    function CategoryOf(row: VideoRow): Option<string>
      reads categories
    {
      NameOf(categories.rows, row.category)
    }

    method FixCategory(video: nat, category: nat)
      modifies this`videos
      ensures Recategorized(old(videos), videos, video, category)
    {
      var rows := videos;
      videos := seq(|rows|, i requires 0 <= i < |rows| =>
        if rows[i].id == video then rows[i].(category := category) else rows[i]);
    }
  }

  /** The rows of one video have a new category number; nothing else differs. */
  ghost predicate Recategorized(videos: seq<VideoRow>, after: seq<VideoRow>, video: nat, category: nat) {
    && |after| == |videos|
    && forall i | 0 <= i < |videos| ::
         after[i] == if videos[i].id == video then videos[i].(category := category) else videos[i]
  }

  /** One video goes by a category name, if there is one to give; every other keeps the name of its category. */
  ghost predicate CategoryGiven(rows: seq<NameRow>, more: seq<NameRow>, videos: seq<VideoRow>, after: seq<VideoRow>,
                                video: nat, category: Option<string>)
  {
    && |after| == |videos|
    && (forall i | 0 <= i < |videos| :: after[i].id == videos[i].id && after[i].filename == videos[i].filename)
    && (forall i | 0 <= i < |videos| ::
          NameOf(more, after[i].category) ==
          if videos[i].id == video && category.Some? then category else NameOf(rows, videos[i].category))
  }

  /** The first video of a file name. */
  function VideoOf(videos: seq<VideoRow>, filename: string): (r: Option<VideoRow>)
    ensures r == None <==> forall i | 0 <= i < |videos| :: videos[i].filename != filename
    ensures r.Some? ==> r.value in videos && exists i | 0 <= i < |videos| ::
      && videos[i] == r.value && r.value.filename == filename
      && forall j | 0 <= j < i :: videos[j].filename != filename
  {
    if |videos| == 0 then None
    else if videos[0].filename == filename then Some(videos[0])
    else VideoOf(videos[1..], filename)
  }

  /** The row a file is archived by; one that is not listed has number and category 0. */
  function ArchivedRow(videos: seq<VideoRow>, filename: string): VideoRow {
    match VideoOf(videos, filename)
    case Some(video) => video
    case None => VideoRow(0, filename, 0)
  }

  method ExportVideo(store: VideoStore, title: string, filename: string, columns: Row) returns (archive: Option<Node>)
    ensures archive ==
      if title == "" || filename == "" then None
      else Some(ArchiveOf(store, ArchivedRow(store.videos, filename), columns))
  {
    if title == "" || filename == "" {
      return None;
    }
    var id, category := 0, 0;
    var found := VideoOf(store.videos, filename);
    if found.Some? {
      id, category := found.value.id, found.value.category;
    }
    archive := Some(Document(columns, ArchivedCategory(store.categories.rows, category),
                             Joined(store.countries.names.rows, IdsOf(store.countries.links, id)),
                             Joined(store.genres.names.rows, IdsOf(store.genres.links, id))));
  }

  function ArchivedCategory(rows: seq<NameRow>, category: nat): Option<NameRow> {
    match NameOf(rows, category)
    case Some(name) => Some(NameRow(category, name))
    case None => None
  }

  /** The category an archive names, if it does. */
  function ListedCategory(children: seq<Node>): Option<string> {
    var found := ElementsByName(children, Category);
    if |found| < 1 then None else Some(Attribute(found[0], Category))
  }

  /** The number of the video that an import links names to: the first of its file name. */
  function TargetOf(videos: seq<VideoRow>, next: nat, filename: string): nat {
    match VideoOf(videos, filename)
    case Some(video) => video.id
    case None => next
  }

  lemma {:induction false} TargetIsFirst(videos: seq<VideoRow>, next: nat, filename: string)
    ensures VideoOf(videos + [VideoRow(next, filename, 0)], filename).Some?
    ensures VideoOf(videos + [VideoRow(next, filename, 0)], filename).value.id == TargetOf(videos, next, filename)
  {
    var all := videos + [VideoRow(next, filename, 0)];
    if |videos| > 0 {
      TargetIsFirst(videos[1..], next, filename);
      assert all[1..] == videos[1..] + [VideoRow(next, filename, 0)];
    }
  }

  /** Adds a video and finds the number of the first one of its file name. */
  method AddVideo(store: VideoStore, filename: string) returns (intid: nat)
    requires store.Valid()
    modifies store`videos, store`next
    ensures store.Valid() && intid < store.next
    ensures intid == TargetOf(old(store.videos), old(store.next), filename)
    ensures store.videos == old(store.videos) + [VideoRow(old(store.next), filename, 0)]
  {
    store.videos := store.videos + [VideoRow(store.next, filename, 0)];
    store.next := store.next + 1;
    TargetIsFirst(old(store.videos), old(store.next), filename);
    intid := VideoOf(store.videos, filename).value.id;
  }

  method LinkVideo(store: VideoStore, intid: nat, genres: seq<string>, countries: seq<string>)
    requires store.Valid() && intid < store.next
    modifies store.genres`links, store.genres.names, store.countries`links, store.countries.names
    ensures store.Valid()
    ensures NameTablesGrow(store) && NamesLinked(store, genres, countries, intid)
  {
    store.genres.LinkNames(intid, genres);
    store.countries.LinkNames(intid, countries);
  }

  /** Restores an archived video under a file name. The names listed are linked to the first
      video of that file name, in addition to any it has. No other video's names change. */
  method ImportVideo(store: VideoStore, item: Node, filename: string, copied: bool) returns (code: int)
    requires store.Valid() && item.Element?
    modifies store.Parts()
    ensures store.Valid()
    ensures code == 0 <==> |ElementsByName(item.children, Videometadata)| > 0 && copied
    ensures code == 0 ==> NameTablesGrow(store) && CategoriesGrow(store)
    ensures code == 0 ==>
      NamesLinked(store, ListedNames(item.children, Genres, Genre), ListedNames(item.children, Countries, Country),
                  TargetOf(old(store.videos), old(store.next), filename))
    ensures code == 0 ==>
      VideoAdded(store, ListedCategory(item.children), filename, TargetOf(old(store.videos), old(store.next), filename))
    ensures code != 0 ==> store.videos == old(store.videos)
  {
    if |ElementsByName(item.children, Videometadata)| < 1 || !copied {
      return 1;
    }
    var intid := AddVideo(store, filename);
    LinkVideo(store, intid, ListedNames(item.children, Genres, Genre), ListedNames(item.children, Countries, Country));
    var category := ListedCategory(item.children);
    if category.Some? {
      RenameCategory(store, intid, category.value);
    }
    code := 0;
  }

  /** Tables of names only grow, and stay free of repeated names. */
  twostate predicate NameTablesGrow(store: VideoStore)
    reads store.Parts()
  {
    && old(store.genres.names.rows) <= store.genres.names.rows
    && old(store.countries.names.rows) <= store.countries.names.rows
    && (DistinctNames(old(store.genres.names.rows)) ==> DistinctNames(store.genres.names.rows))
    && (DistinctNames(old(store.countries.names.rows)) ==> DistinctNames(store.countries.names.rows))
  }

  twostate predicate CategoriesGrow(store: VideoStore)
    reads store.categories
  {
    && old(store.categories.rows) <= store.categories.rows
    && (DistinctNames(old(store.categories.rows)) ==> DistinctNames(store.categories.rows))
  }

  twostate predicate NamesLinked(store: VideoStore, genres: seq<string>, countries: seq<string>, target: nat)
    reads store.genres, store.genres.names, store.countries, store.countries.names
  {
    && (forall v: nat ::
          store.genres.NamesFor(v) == old(store.genres.NamesFor(v)) + (if v == target then genres else []))
    && (forall v: nat ::
          store.countries.NamesFor(v) == old(store.countries.NamesFor(v)) + (if v == target then countries else []))
  }

  /** One video is added, without a category of its own; the category listed goes to the
      target; and every other video keeps the name of its category. */
  twostate predicate VideoAdded(store: VideoStore, category: Option<string>, filename: string, target: nat)
    reads store, store.categories
  {
    CategoryGiven(old(store.categories.rows), store.categories.rows,
                  old(store.videos) + [VideoRow(old(store.next), filename, 0)], store.videos, target, category)
  }

  /** Gives a video a category by name. */
  method RenameCategory(store: VideoStore, video: nat, name: string)
    requires store.Valid()
    modifies store`videos, store.categories
    ensures store.Valid()
    ensures old(store.categories.rows) <= store.categories.rows
    ensures DistinctNames(old(store.categories.rows)) ==> DistinctNames(store.categories.rows)
    ensures CategoryGiven(old(store.categories.rows), store.categories.rows,
                          old(store.videos), store.videos, video, Some(name))
  {
    ghost var rows, next, videos := store.categories.rows, store.categories.next, store.videos;
    var id := store.categories.FindOrInsert(name);
    store.FixCategory(video, id);
    RecategorizedIsRenamed(rows, store.categories.rows, next, videos, store.videos, video, id, name);
    RecategorizedNumbered(videos, store.videos, video, id, store.next, next, store.categories.next);
  }

  lemma RecategorizedNumbered(videos: seq<VideoRow>, after: seq<VideoRow>, video: nat, id: nat,
                              next: nat, was: nat, now: nat)
    requires Numbered(videos, next, was) && was <= now && id < now && Recategorized(videos, after, video, id)
    ensures Numbered(after, next, now)
  {
  }

  lemma RecategorizedIsRenamed(rows: seq<NameRow>, more: seq<NameRow>, next: nat,
                               videos: seq<VideoRow>, after: seq<VideoRow>, video: nat, id: nat, name: string)
    requires DistinctIds(more) && rows <= more && NameOf(more, id) == Some(name)
    requires forall i | |rows| <= i < |more| :: more[i].id >= next
    requires forall i | 0 <= i < |videos| :: videos[i].category < next
    requires Recategorized(videos, after, video, id)
    ensures CategoryGiven(rows, more, videos, after, video, Some(name))
  {
    forall i | 0 <= i < |videos|
      ensures NameOf(more, videos[i].category) == NameOf(rows, videos[i].category)
    {
      NumbersKeepNames(rows, more, next, videos[i].category);
    }
  }

  /** A number given out before a table grew means the same afterwards, named or not. */
  lemma NumbersKeepNames(rows: seq<NameRow>, more: seq<NameRow>, next: nat, id: nat)
    requires DistinctIds(more) && rows <= more && id < next
    requires forall i | |rows| <= i < |more| :: more[i].id >= next
    ensures NameOf(more, id) == NameOf(rows, id)
  {
    if NameOf(rows, id).Some? {
      NameOfLonger(rows, more, id);
    } else {
      assert forall k | 0 <= k < |rows| :: more[k] == rows[k];
    }
  }

  // ----- the round trip ------------------------------------------------------------------------------

  /** Restoring an archive under a file name that is new to the store: the new video has
      exactly the names listed, and no other video's names change. */
  method RestoreAsNew(store: VideoStore, item: Node, newName: string) returns (ghost id: nat)
    requires store.Valid() && item.Element? && |ElementsByName(item.children, Videometadata)| > 0
    requires VideoOf(store.videos, newName) == None
    modifies store.Parts()
    ensures store.Valid() && |store.videos| == |old(store.videos)| + 1
    ensures var now := store.videos[|store.videos| - 1];
      && now.id == id && now.filename == newName
      && store.CategoryOf(now) == ListedCategory(item.children)
    ensures forall v: nat ::
      store.genres.NamesFor(v) ==
      if v == id then ListedNames(item.children, Genres, Genre) else old(store.genres.NamesFor(v))
    ensures forall v: nat ::
      store.countries.NamesFor(v) ==
      if v == id then ListedNames(item.children, Countries, Country) else old(store.countries.NamesFor(v))
    ensures forall i | 0 <= i < |old(store.videos)| ::
      store.videos[i].id != id && store.CategoryOf(store.videos[i]) == old(store.CategoryOf(store.videos[i]))
    ensures NameTablesGrow(store) && CategoriesGrow(store)
  {
    id := store.next;
    UnlinkedHasNoIds(store.genres.links, id);
    UnlinkedHasNoIds(store.countries.links, id);
    var _ := ImportVideo(store, item, newName, true);
  }

  /** Restoring an archive under any file name: the new video has exactly the genres, countries
      and category listed, and no more, exactly when the name is new to the store or the archive
      lists none. Otherwise they go to the older video of that name. */
  method RestoreAnywhere(store: VideoStore, item: Node, filename: string) returns (ghost id: nat)
    requires store.Valid() && item.Element? && |ElementsByName(item.children, Videometadata)| > 0
    modifies store.Parts()
    ensures store.Valid() && |store.videos| == |old(store.videos)| + 1 && store.videos[|store.videos| - 1].id == id
    ensures HasNames(store, store.videos[|store.videos| - 1], item.children) <==>
      VideoOf(old(store.videos), filename) == None || ListsNoNames(item.children)
  {
    id := store.next;
    UnlinkedHasNoIds(store.genres.links, id);
    UnlinkedHasNoIds(store.countries.links, id);
    ghost var rows := store.categories.rows;
    assert NameOf(rows, 0) == None;
    var _ := ImportVideo(store, item, filename, true);
  }

  /** A video has exactly the genres, countries and category that an archive lists. */
  ghost predicate HasNames(store: VideoStore, video: VideoRow, children: seq<Node>)
    reads store.genres, store.genres.names, store.countries, store.countries.names, store.categories
  {
    && store.genres.NamesFor(video.id) == ListedNames(children, Genres, Genre)
    && store.countries.NamesFor(video.id) == ListedNames(children, Countries, Country)
    && store.CategoryOf(video) == ListedCategory(children)
  }

  ghost predicate ListsNoNames(children: seq<Node>) {
    && ListedNames(children, Genres, Genre) == []
    && ListedNames(children, Countries, Country) == []
    && ListedCategory(children) == None
  }

  /** The archive of a drama. */
  function DramaArchive(): (item: Node)
    ensures item.Element?
  {
    Document([], None, [], [NameRow(7, "Drama")])
  }

  lemma DramaLists()
    ensures var children := DramaArchive().children;
      && |ElementsByName(children, Videometadata)| > 0
      && ListedNames(children, Genres, Genre) == ["Drama"]
  {
    var genres := [NameRow(7, "Drama")];
    PartsLookup([], None, [], genres);
    ListedAre(DramaArchive().children, Genres, Genre, genres);
    assert NodeNames(NameNodes(Genre, genres), Genre) == ["Drama"];
  }

  /** A drama restored under a file name that is there already is a new video without a genre. */
  method GenreGoesToOlderVideo() returns (store: VideoStore, older: nat, newer: nat)
    ensures |store.videos| == 2 && store.videos[0].id == older && store.videos[1].id == newer
    ensures store.genres.NamesFor(older) == ["Drama"] && store.genres.NamesFor(newer) == []
  {
    store, older := StoreWithVideo("film.mpg");
    newer := store.next;
    DramaLists();
    var _ := ImportVideo(store, DramaArchive(), "film.mpg", true);
  }

  method StoreWithVideo(filename: string) returns (store: VideoStore, id: nat)
    ensures fresh(store.Parts()) && store.Valid() && store.videos == [VideoRow(id, filename, 0)]
    ensures forall v: nat :: store.genres.NamesFor(v) == []
  {
    store := EmptyStore();
    id := AddVideo(store, filename);
  }

  method EmptyStore() returns (store: VideoStore)
    ensures fresh(store.Parts()) && store.Valid() && store.videos == [] && store.genres.links == []
  {
    var genreNames, countryNames, categories := NewTables();
    var genres := new NameLinks(genreNames);
    var countries := new NameLinks(countryNames);
    store := new VideoStore(genres, countries, categories);
  }

  method NewTables() returns (a: NameTable, b: NameTable, c: NameTable)
    ensures fresh({a, b, c}) && a != b && b != c && a != c
    ensures a.Valid() && b.Valid() && c.Valid() && a.rows == b.rows == c.rows == []
  {
    a := new NameTable();
    b := new NameTable();
    c := new NameTable();
  }

  /** Archiving a video that one store lists and restoring it into another under a file name
      that is new there: it has the same genre, country and category names, whatever numbers
      they go by, and no other video's names have changed. */
  method CopyVideo(src: VideoStore, dst: VideoStore, title: string, filename: string, columns: Row, newName: string)
    returns (ghost id: nat)
    requires src.Valid() && dst.Valid() && src.Parts() !! dst.Parts()
    requires title != "" && filename != "" && VideoOf(src.videos, filename).Some?
    requires VideoOf(dst.videos, newName) == None
    modifies dst.Parts()
    ensures dst.Valid() && |dst.videos| == |old(dst.videos)| + 1
    ensures var was, now := VideoOf(src.videos, filename).value, dst.videos[|dst.videos| - 1];
      && now.id == id && now.filename == newName
      && dst.genres.NamesFor(id) == src.genres.NamesFor(was.id)
      && dst.countries.NamesFor(id) == src.countries.NamesFor(was.id)
      && dst.CategoryOf(now) == src.CategoryOf(was)
    ensures forall v: nat | v != id ::
      && dst.genres.NamesFor(v) == old(dst.genres.NamesFor(v))
      && dst.countries.NamesFor(v) == old(dst.countries.NamesFor(v))
    ensures forall i | 0 <= i < |old(dst.videos)| :: dst.CategoryOf(dst.videos[i]) == old(dst.CategoryOf(dst.videos[i]))
  {
    var archive := ExportVideo(src, title, filename, columns);
    ArchiveHolds(src, VideoOf(src.videos, filename).value, columns);
    id := RestoreAsNew(dst, archive.value, newName);
  }

  /** The archive of a video in terms of the store it comes from. */
  function ArchiveOf(store: VideoStore, video: VideoRow, columns: Row): Node
    reads store, store.genres, store.countries, store.genres.names, store.countries.names, store.categories
  {
    Document(columns, ArchivedCategory(store.categories.rows, video.category),
             Joined(store.countries.names.rows, IdsOf(store.countries.links, video.id)),
             Joined(store.genres.names.rows, IdsOf(store.genres.links, video.id)))
  }

  /** An archive lists exactly the names a video has. */
  lemma ArchiveHolds(store: VideoStore, video: VideoRow, columns: Row)
    ensures var item := ArchiveOf(store, video, columns);
      && |ElementsByName(item.children, Videometadata)| > 0
      && ListedCategory(item.children) == store.CategoryOf(video)
      && ListedNames(item.children, Countries, Country) == store.countries.NamesFor(video.id)
      && ListedNames(item.children, Genres, Genre) == store.genres.NamesFor(video.id)
  {
    var category := ArchivedCategory(store.categories.rows, video.category);
    var countryIds, genreIds := IdsOf(store.countries.links, video.id), IdsOf(store.genres.links, video.id);
    var countries, genres := Joined(store.countries.names.rows, countryIds), Joined(store.genres.names.rows, genreIds);
    PartsLookup(columns, category, countries, genres);
    CategoryFound(columns, category, countries, genres);
    ListedAre(ArchiveOf(store, video, columns).children, Countries, Country, countries);
    ListedAre(ArchiveOf(store, video, columns).children, Genres, Genre, genres);
    JoinedNames(store.countries.names.rows, countryIds, Country);
    JoinedNames(store.genres.names.rows, genreIds, Genre);
  }
}
