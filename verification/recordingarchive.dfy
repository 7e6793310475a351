/** Archiving a recording as an element tree and restoring it under another channel. */
module RecordingArchive {
  import opened ArchiveItems
  import opened Dom
  import opened Paths

  /** The columns of a recording: 0 chanid, 1 starttime, 2 endtime, 3 title, 4 subtitle,
      5 description, 6 category, 7 hostname, 8 bookmark, 9 editing, 10 cutlist, 11 autoexpire,
      12 commflagged, 13 recgroup, 14 recordid, 15 seriesid, 16 programid, 17 lastmodified,
      18 filesize, 19 stars, 20 previouslyshown, 21 originalairdate, 22 preserve, 23 findid,
      24 deletepending, 25 transcoder, 26 timestretch, 27 recpriority, 28 basename,
      29 progstart, 30 progend, 31 playgroup, 32 profile, 33 duplicate, 34 transcoded. */
  const COLUMN_COUNT := 35
  const CHANID := 0
  const STARTTIME := 1
  const HOSTNAME := 7
  const RECGROUP := 13
  const RECORDID := 14
  const SERIESID := 15
  const PROGRAMID := 16
  const BASENAME := 28
  const PLAYGROUP := 31
  const PROFILE := 32

  // ----- the mark tables ---------------------------------------------------------------------

  datatype MarkRow = MarkRow(chanid: string, starttime: string, mark: string, offset: string, kind: string) {
    predicate SameKey(other: MarkRow) {
      chanid == other.chanid && starttime == other.starttime && mark == other.mark && kind == other.kind
    }

    predicate Of(chan: string, start: string) {
      chanid == chan && starttime == start
    }
  }

  ghost predicate Keyed(rows: seq<MarkRow>) {
    forall i, j | 0 <= i < j < |rows| :: !rows[i].SameKey(rows[j])
  }

  function RowsOf(rows: seq<MarkRow>, chan: string, start: string): (r: seq<MarkRow>)
    ensures forall m | m in r :: m.Of(chan, start)
  {
    if |rows| == 0 then []
    else
      var before := RowsOf(rows[..|rows| - 1], chan, start);
      if rows[|rows| - 1].Of(chan, start) then before + [rows[|rows| - 1]] else before
  }

  /** The marks of a recording are all the rows with its channel and time, in their order. */
  lemma {:induction false} RowsOfAre(rows: seq<MarkRow>, chan: string, start: string, m: MarkRow, n: nat)
    requires n <= |rows|
    ensures m in RowsOf(rows, chan, start) <==> m in rows && m.chanid == chan && m.starttime == start
    ensures RowsOf(rows[..n], chan, start) <= RowsOf(rows, chan, start)
  {
    if |rows| > 0 {
      var front := rows[..|rows| - 1];
      assert rows == front + [rows[|rows| - 1]];
      RowsOfAre(front, chan, start, m, if n < |rows| then n else 0);
      assert n < |rows| ==> front[..n] == rows[..n];
      assert n == |rows| ==> rows[..n] == rows;
    }
  }

  function Rekeyed(rows: seq<MarkRow>, chan: string): (r: seq<MarkRow>)
    ensures |r| == |rows| && forall i | 0 <= i < |r| :: r[i] == rows[i].(chanid := chan)
  {
    seq(|rows|, i requires 0 <= i < |rows| => rows[i].(chanid := chan))
  }

  /** A table of marks, unique by recording, position and type. Whether it has an offset
      column depends on the schema; every statement on it here names that column. */
  class MarkTable {
    const hasOffset: bool
    var rows: seq<MarkRow>

    constructor (hasOffset: bool)
      ensures this.hasOffset == hasOffset && rows == [] && Valid()
    {
      this.hasOffset, rows := hasOffset, [];
    }

    ghost predicate Valid()
      reads this
    {
      Keyed(rows)
    }

    /** What selecting the marks of a recording yields. */
    function Found(chan: string, start: string): Option<seq<MarkRow>>
      reads this
    {
      if hasOffset then Some(RowsOf(rows, chan, start)) else None
    }

    method Insert(row: MarkRow) returns (ok: bool)
      requires Valid()
      modifies this`rows
      ensures Valid()
      ensures ok <==> hasOffset && Keyed(old(rows) + [row])
      ensures ok <==> hasOffset && forall r | r in old(rows) ::
        r.chanid != row.chanid || r.starttime != row.starttime || r.mark != row.mark || r.kind != row.kind
      ensures rows == if ok then old(rows) + [row] else old(rows)
    {
      if !hasOffset {
        return false;
      }
      for i := 0 to |rows|
        invariant forall j | 0 <= j < i :: !rows[j].SameKey(row)
      {
        if rows[i].SameKey(row) {
          assert (rows + [row])[i].SameKey((rows + [row])[|rows|]);
          return false;
        }
      }
      rows := rows + [row];
      return true;
    }
  }

  class RecordingStore {
    var recorded: seq<Row>
    const markup: MarkTable
    const seek: MarkTable

    constructor (recorded: seq<Row>, markup: MarkTable, seek: MarkTable)
      ensures this.recorded == recorded && this.markup == markup && this.seek == seek
    {
      this.recorded, this.markup, this.seek := recorded, markup, seek;
    }

    ghost predicate Valid()
      reads this, markup, seek
    {
      && markup != seek && markup.Valid() && seek.Valid()
      && (forall i | 0 <= i < |recorded| :: |recorded[i]| == COLUMN_COUNT)
      && forall i, j | 0 <= i < j < |recorded| ::
           recorded[i][CHANID] != recorded[j][CHANID] || recorded[i][STARTTIME] != recorded[j][STARTTIME]
    }
  }

  // ----- the archive file ---------------------------------------------------------------------------

  function MarkNode(m: MarkRow): Node {
    Element(MarkName, map[MarkName := m.mark, Offset := m.offset, Type := m.kind], [])
  }

  function MarkNodes(rows: seq<MarkRow>): (r: seq<Node>)
    ensures |r| == |rows| && forall i | 0 <= i < |r| :: r[i] == MarkNode(rows[i])
  {
    seq(|rows|, i requires 0 <= i < |rows| => MarkNode(rows[i]))
  }

  /** A mark table contributes an element when the query on it works and finds something. */
  function MarksPart(name: Name, found: Option<seq<MarkRow>>): seq<Node> {
    if found.Some? && |found.value| > 0 then [Element(name, map[], MarkNodes(found.value))] else []
  }

  /** The archive of a recording; `others` are its channel, credits and rating elements. */
  function Document(row: Row, others: seq<Node>, markup: Option<seq<MarkRow>>, seek: Option<seq<MarkRow>>): Node
    requires |row| == COLUMN_COUNT
  {
    Element(Item, map[],
            [Element(Recorded, map[], Fields(row))] + others
            + MarksPart(Recordedmarkup, markup) + MarksPart(Recordedseek, seek))
  }

  ghost predicate NoMarksAmong(others: seq<Node>) {
    ElementsByName(others, Recordedmarkup) == [] && ElementsByName(others, Recordedseek) == []
  }

  /** The text of a column, with the values that are always replaced on the way in. */
  function FindNodeText(children: seq<Node>, column: nat): string {
    var found := ElementsByName(children, Column(column));
    if |found| < 1 then ""
    else if column == RECGROUP || column == PLAYGROUP then "Default"
    else if column == RECORDID || column == SERIESID || column == PROGRAMID || column == PROFILE then ""
    else if found[0].Element? then FirstText(found[0].children) else ""
  }

  function ImportedRow(fields: seq<Node>, chan: string, host: string): (r: Row)
    ensures |r| == COLUMN_COUNT
  {
    seq(COLUMN_COUNT, i requires 0 <= i < COLUMN_COUNT =>
      if i == CHANID then chan else if i == HOSTNAME then host else FindNodeText(fields, i))
  }

  /** What becomes of a column of an archived recording. */
  function Restored(row: Row, column: nat, chan: string, host: string): string
    requires column < |row|
  {
    if column == CHANID then chan
    else if column == HOSTNAME then host
    else if column == RECGROUP || column == PLAYGROUP then "Default"
    else if column == RECORDID || column == SERIESID || column == PROGRAMID || column == PROFILE then ""
    else row[column]
  }

  lemma FieldText(row: Row, i: nat)
    requires i < |row|
    ensures FindNodeText(Fields(row), i) ==
      if i == RECGROUP || i == PLAYGROUP then "Default"
      else if i == RECORDID || i == SERIESID || i == PROGRAMID || i == PROFILE then ""
      else row[i]
  {
    FieldLookup(row, 0, Column(i));
    assert FirstText(Field(row, i).children) == row[i];
  }

  /** Reading an archived recording back gives every column its archived value, except the
      channel, the host and the six columns with fixed values. */
  lemma ImportedRowRestores(row: Row, chan: string, host: string)
    requires |row| == COLUMN_COUNT
    ensures var r := ImportedRow(Fields(row), chan, host);
      forall i | 0 <= i < COLUMN_COUNT :: r[i] == Restored(row, i, chan, host)
  {
    forall i | 0 <= i < COLUMN_COUNT
      ensures ImportedRow(Fields(row), chan, host)[i] == Restored(row, i, chan, host)
    {
      FieldText(row, i);
    }
  }

  lemma {:induction false} MarksLookup(name: Name, found: Option<seq<MarkRow>>, other: Name)
    requires name != MarkName
    ensures ElementsByName(MarksPart(name, found), name) == MarksPart(name, found)
    ensures other != name && other != MarkName ==> ElementsByName(MarksPart(name, found), other) == []
    ensures found.Some? ==> ElementsByName(MarkNodes(found.value), MarkName) == MarkNodes(found.value)
  {
    if found.Some? {
      LeavesLookup(MarkNodes(found.value), MarkName, name);
      LeavesLookup(MarkNodes(found.value), MarkName, other);
      LeavesLookup(MarkNodes(found.value), MarkName, MarkName);
      ElementLookup(Element(name, map[], MarkNodes(found.value)), name);
      ElementLookup(Element(name, map[], MarkNodes(found.value)), other);
    }
  }

  /** What the importer finds in an archive is what the exporter put there. */
  lemma DocumentLookup(row: Row, others: seq<Node>, markup: Option<seq<MarkRow>>, seek: Option<seq<MarkRow>>)
    requires |row| == COLUMN_COUNT && NoMarksAmong(others)
    ensures var item := Document(row, others, markup, seek);
      && |ElementsByName(item.children, Recorded)| > 0
      && ElementsByName(item.children, Recorded)[0] == Element(Recorded, map[], Fields(row))
      && ElementsByName(item.children, Recordedmarkup) == MarksPart(Recordedmarkup, markup)
      && ElementsByName(item.children, Recordedseek) == MarksPart(Recordedseek, seek)
  {
    RecordedFirst(row, others, markup, seek);
    MarksPartLookup(row, others, markup, seek, Recordedmarkup);
    MarksPartLookup(row, others, markup, seek, Recordedseek);
  }

  lemma RecordedFirst(row: Row, others: seq<Node>, markup: Option<seq<MarkRow>>, seek: Option<seq<MarkRow>>)
    requires |row| == COLUMN_COUNT
    ensures var found := ElementsByName(Document(row, others, markup, seek).children, Recorded);
      |found| > 0 && found[0] == Element(Recorded, map[], Fields(row))
  {
    var m, s := MarksPart(Recordedmarkup, markup), MarksPart(Recordedseek, seek);
    RecordedLookup(row, others + m + s);
    assert [Element(Recorded, map[], Fields(row))] + (others + m + s) == Document(row, others, markup, seek).children;
  }

  lemma MarksPartLookup(row: Row, others: seq<Node>, markup: Option<seq<MarkRow>>, seek: Option<seq<MarkRow>>,
                        name: Name)
    requires |row| == COLUMN_COUNT && NoMarksAmong(others) && (name == Recordedmarkup || name == Recordedseek)
    ensures ElementsByName(Document(row, others, markup, seek).children, name) ==
      if name == Recordedmarkup then MarksPart(name, markup) else MarksPart(name, seek)
  {
    MarksLookup(Recordedmarkup, markup, Recordedseek);
    MarksLookup(Recordedseek, seek, Recordedmarkup);
    PartsLookup(row, others, MarksPart(Recordedmarkup, markup), MarksPart(Recordedseek, seek), name);
  }

  lemma RecordedLookup(row: Row, rest: seq<Node>)
    ensures var parts := [Element(Recorded, map[], Fields(row))] + rest;
      && |ElementsByName(parts, Recorded)| > 0
      && ElementsByName(parts, Recorded)[0] == Element(Recorded, map[], Fields(row))
  {
  }

  lemma PartsLookup(row: Row, others: seq<Node>, m: seq<Node>, s: seq<Node>, name: Name)
    requires |row| == COLUMN_COUNT && !name.Column? && name != Recorded
    ensures ElementsByName([Element(Recorded, map[], Fields(row))] + others + m + s, name)
      == ElementsByName(others, name) + ElementsByName(m, name) + ElementsByName(s, name)
  {
    var recorded := [Element(Recorded, map[], Fields(row))];
    FourParts(recorded, others, m, s, name);
    NoneInRecorded(row, name);
    assert [] + ElementsByName(others, name) == ElementsByName(others, name);
  }

  lemma NoneInRecorded(row: Row, name: Name)
    requires !name.Column? && name != Recorded
    ensures ElementsByName([Element(Recorded, map[], Fields(row))], name) == []
  {
    ElementLookup(Element(Recorded, map[], Fields(row)), name);
    FieldLookup(row, 0, name);
  }

  // ----- exporting ---------------------------------------------------------------------------------

  function WithBasename(rows: seq<Row>, name: string): (r: Option<Row>)
    requires forall i | 0 <= i < |rows| :: |rows[i]| == COLUMN_COUNT
    ensures r.Some? <==> exists i | 0 <= i < |rows| :: rows[i][BASENAME] == name
    ensures r.Some? ==> r.value in rows && r.value[BASENAME] == name
  {
    if |rows| == 0 then None
    else if rows[0][BASENAME] == name then Some(rows[0])
    else
      var r := WithBasename(rows[1..], name);
      assert r.Some? ==>
        exists i | 0 <= i < |rows[1..]| :: rows[1..][i][BASENAME] == name && rows[i + 1] == rows[1..][i];
      r
  }

  function WithKey(rows: seq<Row>, chan: string, start: string): (r: Option<Row>)
    requires forall i | 0 <= i < |rows| :: |rows[i]| == COLUMN_COUNT
    ensures r == None ==> forall i | 0 <= i < |rows| :: rows[i][CHANID] != chan || rows[i][STARTTIME] != start
    ensures r.Some? ==> r.value in rows && r.value[CHANID] == chan && r.value[STARTTIME] == start
  {
    if |rows| == 0 then None
    else if rows[0][CHANID] == chan && rows[0][STARTTIME] == start then Some(rows[0])
    else
      var r := WithKey(rows[1..], chan, start);
      assert r == None ==> forall i | 1 <= i < |rows| :: rows[i] == rows[1..][i - 1];
      r
  }

  /** Only the recording of the file asked for is archived, and only if it has a title and a name. */
  method ExportRecording(store: RecordingStore, title: string, filename: string, others: seq<Node>)
    returns (archive: Option<Node>, ghost row: Row)
    requires store.Valid()
    ensures archive.Some? <==> (
      && title != "" && filename != ""
      && exists i | 0 <= i < |store.recorded| :: store.recorded[i][BASENAME] == BaseName(filename))
    ensures archive.Some? ==> row in store.recorded && |row| == COLUMN_COUNT && row[BASENAME] == BaseName(filename)
    ensures archive.Some? ==>
      archive == Some(Document(row, others, store.markup.Found(row[CHANID], row[STARTTIME]),
                               store.seek.Found(row[CHANID], row[STARTTIME])))
  {
    row := [];
    if title == "" || filename == "" {
      return None, row;
    }
    var details := WithBasename(store.recorded, BaseName(filename));
    if details == None {
      return None, row;
    }
    var chan, start := details.value[CHANID], details.value[STARTTIME];
    var found := WithKey(store.recorded, chan, start);
    row := details.value;
    assert found == Some(row);
    archive := Some(Document(found.value, others, store.markup.Found(chan, start), store.seek.Found(chan, start)));
  }

  // ----- importing ---------------------------------------------------------------------------------

  /** The marks an archive holds, as rows for a channel and start time. */
  function ArchivedMarks(children: seq<Node>, name: Name, chan: string, start: string): seq<MarkRow> {
    var tables := ElementsByName(children, name);
    if |tables| < 1 || tables[0].Text? then []
    else
      var marks := ElementsByName(tables[0].children, MarkName);
      seq(|marks|, i requires 0 <= i < |marks| =>
        MarkRow(chan, start, Attribute(marks[i], MarkName), Attribute(marks[i], Offset), Attribute(marks[i], Type)))
  }

  /** Inserting stops at the first mark the table refuses. */
  method ImportMarks(table: MarkTable, children: seq<Node>, name: Name, chan: string, start: string)
    returns (ok: bool)
    requires table.Valid()
    modifies table
    ensures table.Valid()
    ensures var marks := ArchivedMarks(children, name, chan, start);
      && (ok <==> Fits(table.hasOffset, old(table.rows), marks))
      && old(table.rows) <= table.rows <= old(table.rows) + marks
      && (ok ==> table.rows == old(table.rows) + marks)
  {
    ghost var before := table.rows;
    var marks := ArchivedMarks(children, name, chan, start);
    for x := 0 to |marks|
      invariant table.Valid()
      invariant table.rows == before + marks[..x]
      invariant x > 0 ==> table.hasOffset
    {
      assert before + marks[..x + 1] == table.rows + [marks[x]];
      ok := table.Insert(marks[x]);
      if !ok {
        if table.hasOffset {
          NotKeyedLonger(before + marks[..x + 1], before + marks);
        }
        return false;
      }
    }
    assert marks[..|marks|] == marks;
    assert |marks| == 0 ==> before + marks == before;
    return true;
  }

  lemma NotKeyedLonger(a: seq<MarkRow>, b: seq<MarkRow>)
    requires !Keyed(a) && |a| <= |b| && forall i | 0 <= i < |a| :: a[i] == b[i]
    ensures !Keyed(b)
  {
    var i, j :| 0 <= i < j < |a| && a[i].SameKey(a[j]);
    assert b[i].SameKey(b[j]);
  }

  /** Restores an archived recording under a channel; the result is 0 for success. `copied`
      tells whether the recording's file could be put in place. */
  method ImportRecording(store: RecordingStore, item: Node, chan: string, host: string, copied: bool)
    returns (code: int)
    requires store.Valid() && item.Element?
    modifies store, store.markup, store.seek
    ensures store.Valid()
    ensures var found := ElementsByName(item.children, Recorded);
      |found| < 1 || found[0].Text? || !copied
      || WithKey(old(store.recorded), chan, FindNodeText(found[0].children, STARTTIME)).Some?
      ==> code == 1 && Untouched(store)
    ensures var found := ElementsByName(item.children, Recorded);
      |found| > 0 && found[0].Element? && copied
      && WithKey(old(store.recorded), chan, FindNodeText(found[0].children, STARTTIME)) == None
      ==>
        var start := FindNodeText(found[0].children, STARTTIME);
        var marks := ArchivedMarks(item.children, Recordedmarkup, chan, start);
        var seeks := ArchivedMarks(item.children, Recordedseek, chan, start);
        && store.recorded == old(store.recorded) + [ImportedRow(found[0].children, chan, host)]
        && (code == 0 <==> (
             && Fits(store.markup.hasOffset, old(store.markup.rows), marks)
             && Fits(store.seek.hasOffset, old(store.seek.rows), seeks)))
        && (code == 0 ==> store.markup.rows == old(store.markup.rows) + marks)
        && (code == 0 ==> store.seek.rows == old(store.seek.rows) + seeks)
  {
    var found := ElementsByName(item.children, Recorded);
    if |found| < 1 || found[0].Text? {
      return 1;
    }
    var fields := found[0].children;
    var start := FindNodeText(fields, STARTTIME);
    if WithKey(store.recorded, chan, start).Some? {
      return 1;
    }
    if !copied {
      return 1;
    }
    store.recorded := store.recorded + [ImportedRow(fields, chan, host)];
    var ok := ImportMarks(store.markup, item.children, Recordedmarkup, chan, start);
    if !ok {
      return 1;
    }
    ok := ImportMarks(store.seek, item.children, Recordedseek, chan, start);
    if !ok {
      return 1;
    }
    return 0;
  }

  // ----- the round trip --------------------------------------------------------------------------------

  /** The marks an import adds for a recording whose table was queried with a given result. */
  function MarksCarried(found: Option<seq<MarkRow>>, chan: string): seq<MarkRow> {
    if found.Some? then Rekeyed(found.value, chan) else []
  }

  lemma CarriedMarks(row: Row, others: seq<Node>, markup: Option<seq<MarkRow>>, seek: Option<seq<MarkRow>>,
                     chan: string, start: string)
    requires |row| == COLUMN_COUNT && NoMarksAmong(others)
    requires markup.Some? ==> forall m | m in markup.value :: m.starttime == start
    requires seek.Some? ==> forall m | m in seek.value :: m.starttime == start
    ensures var item := Document(row, others, markup, seek);
      && ArchivedMarks(item.children, Recordedmarkup, chan, start) == MarksCarried(markup, chan)
      && ArchivedMarks(item.children, Recordedseek, chan, start) == MarksCarried(seek, chan)
  {
    DocumentLookup(row, others, markup, seek);
    var item := Document(row, others, markup, seek);
    PartCarried(item.children, Recordedmarkup, markup, chan, start);
    PartCarried(item.children, Recordedseek, seek, chan, start);
  }

  lemma PartCarried(children: seq<Node>, name: Name, found: Option<seq<MarkRow>>, chan: string, start: string)
    requires name != MarkName && ElementsByName(children, name) == MarksPart(name, found)
    requires found.Some? ==> forall m | m in found.value :: m.starttime == start
    ensures ArchivedMarks(children, name, chan, start) == MarksCarried(found, chan)
  {
    MarksLookup(name, found, name);
  }

  lemma {:induction false} RowsOfKeyed(rows: seq<MarkRow>, chan: string, start: string)
    requires Keyed(rows)
    ensures Keyed(RowsOf(rows, chan, start))
    ensures forall m | m in RowsOf(rows, chan, start) :: m in rows
  {
    if |rows| > 0 {
      var front, last := rows[..|rows| - 1], rows[|rows| - 1];
      RowsOfKeyed(front, chan, start);
      assert rows == front + [last];
      assert forall m | m in front :: !m.SameKey(last);
    }
  }

  /** A channel and start time that a table has no marks for has room for any recording's marks. */
  lemma RoomForMarks(rows: seq<MarkRow>, found: seq<MarkRow>, chan: string, start: string)
    requires Keyed(rows) && Keyed(found)
    requires NoMarksOf(rows, chan, start)
    requires forall i | 0 <= i < |found| :: found[i].starttime == start
    requires forall i, j | 0 <= i < |found| && 0 <= j < |found| :: found[i].chanid == found[j].chanid
    ensures Keyed(rows + Rekeyed(found, chan))
  {
    var r := Rekeyed(found, chan);
    var all := rows + r;
    forall i, j | 0 <= i < j < |all| ensures !all[i].SameKey(all[j]) {
      if i >= |rows| {
        assert !found[i - |rows|].SameKey(found[j - |rows|]);
      } else if j >= |rows| {
        assert all[i] in rows && all[j] == r[j - |rows|];
      }
    }
  }

  /** Importing the archive of a given row, in terms of that row. */
  method Restore(store: RecordingStore, row: Row, others: seq<Node>, markup: Option<seq<MarkRow>>,
                 seek: Option<seq<MarkRow>>, chan: string, host: string)
    returns (code: int)
    requires store.Valid() && |row| == COLUMN_COUNT && NoMarksAmong(others)
    requires markup.Some? ==> forall m | m in markup.value :: m.starttime == row[STARTTIME]
    requires seek.Some? ==> forall m | m in seek.value :: m.starttime == row[STARTTIME]
    modifies store, store.markup, store.seek
    ensures store.Valid()
    ensures WithKey(old(store.recorded), chan, row[STARTTIME]).Some? ==> code == 1 && Untouched(store)
    ensures WithKey(old(store.recorded), chan, row[STARTTIME]) == None ==>
      && store.recorded == old(store.recorded) + [ImportedRow(Fields(row), chan, host)]
      && (code == 0 <==> (
           && Fits(store.markup.hasOffset, old(store.markup.rows), MarksCarried(markup, chan))
           && Fits(store.seek.hasOffset, old(store.seek.rows), MarksCarried(seek, chan))))
      && (code == 0 ==> store.markup.rows == old(store.markup.rows) + MarksCarried(markup, chan))
      && (code == 0 ==> store.seek.rows == old(store.seek.rows) + MarksCarried(seek, chan))
  {
    DocumentLookup(row, others, markup, seek);
    FieldText(row, STARTTIME);
    CarriedMarks(row, others, markup, seek, chan, row[STARTTIME]);
    code := ImportRecording(store, Document(row, others, markup, seek), chan, host, true);
  }

  twostate predicate Untouched(store: RecordingStore)
    reads store, store.markup, store.seek
  {
    && store.recorded == old(store.recorded)
    && store.markup.rows == old(store.markup.rows) && store.seek.rows == old(store.seek.rows)
  }

  /** Archiving a recording from one store and restoring it into another. If the other store
      has a recording of the channel at that time already, nothing happens. Otherwise every
      column comes back, but for the channel, the host and the fixed six; and where no marks
      are in the way, those that were archived come back under the new channel, if their
      tables have the column they are written to. */
  method CopyRecording(src: RecordingStore, dst: RecordingStore, title: string, filename: string, others: seq<Node>,
                       chan: string, host: string)
    returns (exported: bool, code: int, ghost row: Row)
    requires src.Valid() && dst.Valid() && NoMarksAmong(others)
    requires {src, src.markup, src.seek} !! {dst, dst.markup, dst.seek}
    modifies dst, dst.markup, dst.seek
    ensures dst.Valid()
    ensures exported <==> (
      && title != "" && filename != ""
      && exists i | 0 <= i < |src.recorded| :: src.recorded[i][BASENAME] == BaseName(filename))
    ensures exported ==> row in src.recorded && |row| == COLUMN_COUNT && row[BASENAME] == BaseName(filename)
    ensures !exported || WithKey(old(dst.recorded), chan, row[STARTTIME]).Some? ==> code == 1 && Untouched(dst)
    ensures exported && WithKey(old(dst.recorded), chan, row[STARTTIME]) == None ==>
      && |dst.recorded| == |old(dst.recorded)| + 1 && old(dst.recorded) <= dst.recorded
      && (forall i | 0 <= i < COLUMN_COUNT :: dst.recorded[|dst.recorded| - 1][i] == Restored(row, i, chan, host))
      && (code == 0 ==> MarksRestored(src.markup, dst.markup, row[CHANID], row[STARTTIME], chan))
      && (code == 0 ==> MarksRestored(src.seek, dst.seek, row[CHANID], row[STARTTIME], chan))
      && (NoMarksOf(old(dst.markup.rows), chan, row[STARTTIME])
          && NoMarksOf(old(dst.seek.rows), chan, row[STARTTIME]) ==>
           (code == 0 <==> (
             && HasRoom(src.markup, dst.markup, row[CHANID], row[STARTTIME], chan)
             && HasRoom(src.seek, dst.seek, row[CHANID], row[STARTTIME], chan))))
  {
    code := 1;
    var archive;
    archive, row := ExportRecording(src, title, filename, others);
    exported := archive.Some?;
    if exported {
      var details := WithBasename(src.recorded, BaseName(filename)).value;
      var chanid, start := details[CHANID], details[STARTTIME];
      assert WithKey(src.recorded, chanid, start) == Some(details);
      if NoMarksOf(dst.markup.rows, chan, start) && NoMarksOf(dst.seek.rows, chan, start) {
        Room(src.markup, dst.markup, chanid, chan, start);
        Room(src.seek, dst.seek, chanid, chan, start);
      }
      ImportedRowRestores(details, chan, host);
      row := details;
      code := Restore(dst, details, others, src.markup.Found(chanid, start), src.seek.Found(chanid, start), chan, host);
    }
  }

  predicate NoMarksOf(rows: seq<MarkRow>, chan: string, start: string) {
    forall m | m in rows :: !m.Of(chan, start)
  }

  /** A table takes new marks when it has the offset column and none of their keys is taken. */
  ghost predicate Fits(hasOffset: bool, rows: seq<MarkRow>, marks: seq<MarkRow>) {
    |marks| == 0 || (hasOffset && Keyed(rows + marks))
  }

  /** The table written to has the column for the marks there are to write. */
  predicate HasRoom(from: MarkTable, to: MarkTable, was: string, start: string, chan: string)
    reads from
  {
    |MarksCarried(from.Found(was, start), chan)| == 0 || to.hasOffset
  }

  twostate predicate MarksRestored(from: MarkTable, to: MarkTable, was: string, start: string, chan: string)
    reads from, to
  {
    to.rows == old(to.rows) + MarksCarried(from.Found(was, start), chan)
  }

  lemma Room(from: MarkTable, to: MarkTable, was: string, chan: string, start: string)
    requires from.Valid() && to.Valid() && NoMarksOf(to.rows, chan, start)
    ensures Keyed(to.rows + MarksCarried(from.Found(was, start), chan))
  {
    RowsOfKeyed(from.rows, was, start);
    var found := RowsOf(from.rows, was, start);
    assert forall i | 0 <= i < |found| :: found[i] in found;
    RoomForMarks(to.rows, found, chan, start);
    assert to.rows + [] == to.rows;
  }

  /** All marks of a recording are carried over exactly when the table they are in has the
      offset column that the exporter asks for, or there are none. */
  lemma MarksCarriedIff(table: MarkTable, was: string, chan: string, start: string)
    ensures MarksCarried(table.Found(was, start), chan) == Rekeyed(RowsOf(table.rows, was, start), chan) <==>
      table.hasOffset || RowsOf(table.rows, was, start) == []
  {
  }

  lemma SameEnding(s: seq<MarkRow>, a: seq<MarkRow>, b: seq<MarkRow>)
    ensures s + a == s + b <==> a == b
  {
    if s + a == s + b {
      assert a == (s + a)[|s|..] && b == (s + b)[|s|..];
    }
  }

  /** All marks of a recording are added to a table under a new channel. */
  twostate predicate AllMarksAdded(from: MarkTable, to: MarkTable, was: string, start: string, chan: string)
    reads from, to
  {
    to.rows == old(to.rows) + Rekeyed(RowsOf(from.rows, was, start), chan)
  }

  /** A copy that is reported to have succeeded has all the marks of the recording exactly when
      the tables it was read from have the offset column, or it has no marks there. */
  method CopyMarksIff(src: RecordingStore, dst: RecordingStore, title: string, filename: string, others: seq<Node>,
                      chan: string, host: string)
    returns (exported: bool, code: int, ghost row: Row)
    requires src.Valid() && dst.Valid() && NoMarksAmong(others)
    requires {src, src.markup, src.seek} !! {dst, dst.markup, dst.seek}
    modifies dst, dst.markup, dst.seek
    ensures code == 0 ==> exported && |row| == COLUMN_COUNT
    ensures code == 0 ==>
      (AllMarksAdded(src.markup, dst.markup, row[CHANID], row[STARTTIME], chan) <==>
        src.markup.hasOffset || RowsOf(src.markup.rows, row[CHANID], row[STARTTIME]) == [])
    ensures code == 0 ==>
      (AllMarksAdded(src.seek, dst.seek, row[CHANID], row[STARTTIME], chan) <==>
        src.seek.hasOffset || RowsOf(src.seek.rows, row[CHANID], row[STARTTIME]) == [])
  {
    ghost var markup, seek := dst.markup.rows, dst.seek.rows;
    exported, code, row := CopyRecording(src, dst, title, filename, others, chan, host);
    if code == 0 {
      var was, start := row[CHANID], row[STARTTIME];
      MarksCarriedIff(src.markup, was, chan, start);
      MarksCarriedIff(src.seek, was, chan, start);
      SameEnding(markup, MarksCarried(src.markup.Found(was, start), chan),
                 Rekeyed(RowsOf(src.markup.rows, was, start), chan));
      SameEnding(seek, MarksCarried(src.seek.Found(was, start), chan),
                 Rekeyed(RowsOf(src.seek.rows, was, start), chan));
    }
  }

  /** One mark in a table without the column: the copy succeeds and the mark is not there. */
  method MarkLostInCopy() returns (code: int, dst: RecordingStore)
    ensures code == 0 && |dst.recorded| == 1 && dst.markup.rows == []
  {
    var row := seq(COLUMN_COUNT, i => "1");
    var from := new MarkTable(false);
    var fromSeek := new MarkTable(true);
    var to := new MarkTable(false);
    var toSeek := new MarkTable(true);
    from.rows := [MarkRow("1", "1", "100", "0", "1")];
    var src := new RecordingStore([row], from, fromSeek);
    dst := new RecordingStore([], to, toSeek);
    assert src.recorded[0][BASENAME] == "1" && BaseName("1") == "1";
    ghost var taken;
    var exported;
    exported, code, taken := CopyRecording(src, dst, "t", "1", [], "2", "host");
  }

  // ----- file names --------------------------------------------------------------------------------------

  /** Where the exporter puts the file of a recording; its archive file is this plus ".xml". */
  function ExportPath(saveDirectory: string, title: string, filename: string): string {
    saveDirectory + title + "/" + BaseName(filename)
  }

  /** The name the importer gives the file it finds beside an archive file. */
  function ImportedName(xmlFile: string): string
    requires |xmlFile| >= 4
  {
    BaseName(xmlFile[..|xmlFile| - 4])
  }

  /** The restored file gets the name the recording is listed under, unless the recording's
      path was a single name directly below the root directory. */
  lemma FileNameSurvivesIff(saveDirectory: string, title: string, filename: string)
    requires title != ""
    ensures ImportedName(ExportPath(saveDirectory, title, filename) + ".xml") == BaseName(filename) <==>
      LastIndexOf(filename, '/') != 0
  {
    var path := ExportPath(saveDirectory, title, filename);
    assert (path + ".xml")[..|path + ".xml"| - 4] == path;
    BaseNameSlashFreeIff(filename);
    if LastIndexOf(filename, '/') != 0 {
      BaseNameOfJoined(saveDirectory + title, BaseName(filename));
    } else {
      SlashAtFront(saveDirectory + title, filename);
    }
  }

  /** A recording directly below the root directory loses the slash its listed name has. */
  lemma FileNameChanged()
    ensures ImportedName(ExportPath("/save/", "t", "/1.mpg") + ".xml") != BaseName("/1.mpg")
  {
    assert LastIndexOf("/1.mpg"[..1], '/') == 0;
    FileNameSurvivesIff("/save/", "t", "/1.mpg");
  }

  /** A copied recording, with the name its file gets: it is the one its restored row names
      exactly when the path is not a single name directly below the root directory. */
  method CopyWithFile(src: RecordingStore, dst: RecordingStore, saveDirectory: string, title: string, filename: string,
                      others: seq<Node>, chan: string, host: string)
    returns (added: bool, file: string)
    requires src.Valid() && dst.Valid() && NoMarksAmong(others)
    requires {src, src.markup, src.seek} !! {dst, dst.markup, dst.seek}
    modifies dst, dst.markup, dst.seek
    ensures dst.Valid() && added == (|dst.recorded| > |old(dst.recorded)|)
    ensures added ==>
      (file == dst.recorded[|dst.recorded| - 1][BASENAME] <==> LastIndexOf(filename, '/') != 0)
  {
    var before := |dst.recorded|;
    ghost var row;
    var exported, code;
    exported, code, row := CopyRecording(src, dst, title, filename, others, chan, host);
    added := |dst.recorded| > before;
    file := ImportedName(ExportPath(saveDirectory, title, filename) + ".xml");
    if added {
      FileNameSurvivesIff(saveDirectory, title, filename);
      assert Restored(row, BASENAME, chan, host) == BaseName(filename);
    }
  }

  /** A store that lists a recording as `/1.mpg`: its file is restored under another name. */
  method FileRestoredUnderOtherName() returns (dst: RecordingStore, file: string)
    ensures dst.Valid() && |dst.recorded| == 1 && dst.recorded[0][BASENAME] == "/1.mpg" && file != "/1.mpg"
  {
    dst := CopyFromRoot();
    file := ImportedName(ExportPath("/save/", "t", "/1.mpg") + ".xml");
    BaseNameAtRoot();
    FileNameSurvivesIff("/save/", "t", "/1.mpg");
  }

  method CopyFromRoot() returns (dst: RecordingStore)
    ensures dst.Valid() && |dst.recorded| == 1 && dst.recorded[0][BASENAME] == "/1.mpg"
  {
    var row := RootRow();
    var src := StoreOf([row]);
    dst := StoreOf([]);
    CopyInto(src, dst);
  }

  method CopyInto(src: RecordingStore, dst: RecordingStore)
    requires src.Valid() && dst.Valid() && {src, src.markup, src.seek} !! {dst, dst.markup, dst.seek}
    requires |src.recorded| == 1 && src.recorded[0][BASENAME] == "/1.mpg" && dst.recorded == []
    modifies dst, dst.markup, dst.seek
    ensures dst.Valid() && |dst.recorded| == 1 && dst.recorded[0][BASENAME] == "/1.mpg"
  {
    BaseNameAtRoot();
    var exported, code;
    ghost var taken;
    exported, code, taken := CopyRecording(src, dst, "t", "/1.mpg", [], "2", "host");
    assert Restored(taken, BASENAME, "2", "host") == "/1.mpg";
  }

  method RootRow() returns (row: Row)
    ensures |row| == COLUMN_COUNT && row[BASENAME] == "/1.mpg"
  {
    row := seq(COLUMN_COUNT, i => if i == BASENAME then "/1.mpg" else "1");
  }

  lemma BaseNameAtRoot()
    ensures LastIndexOf("/1.mpg", '/') == 0 && BaseName("/1.mpg") == "/1.mpg"
  {
    assert LastIndexOf("/1.mpg"[..1], '/') == 0;
  }

  method StoreOf(rows: seq<Row>) returns (store: RecordingStore)
    requires |rows| <= 1 && forall i | 0 <= i < |rows| :: |rows[i]| == COLUMN_COUNT
    ensures fresh(store) && fresh(store.markup) && fresh(store.seek)
    ensures store.Valid() && store.recorded == rows && store.markup.rows == store.seek.rows == []
  {
    var markup := new MarkTable(true);
    var seek := new MarkTable(true);
    store := new RecordingStore(rows, markup, seek);
  }
}
