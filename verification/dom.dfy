/** The element trees that archive files are read from and written to. */
module Dom {

  /** Element and attribute names. The columns of a table are numbered in the order in which
      the exporter writes them. */
  datatype Name =
    | Column(index: nat)
    | Item | Recorded | Recordedmarkup | Recordedseek | MarkName | Offset | Type
    | Channel | Credits | Credit | Rating
    | Videometadata | Category | Countries | Country | Genres | Genre | Intid

  datatype Node =
    | Element(name: Name, attributes: map<Name, string>, children: seq<Node>)
    | Text(data: string)

  /** A row of a table, by column number. */
  type Row = seq<string>

  function Attribute(n: Node, name: Name): string {
    if n.Element? && name in n.attributes then n.attributes[name] else ""
  }

  /** All elements of a name below a node, in document order. */
  function ElementsByName(children: seq<Node>, name: Name): seq<Node> {
    if |children| == 0 then []
    else
      var rest := ElementsByName(children[1..], name);
      match children[0]
      case Text(_) => rest
      case Element(n, _, kids) =>
        var inner := ElementsByName(kids, name) + rest;
        if n == name then [children[0]] + inner else inner
  }

  /** The first text below an element. */
  function FirstText(children: seq<Node>): string {
    if |children| == 0 then ""
    else if children[0].Text? then children[0].data
    else FirstText(children[1..])
  }

  // ----- rows as elements ---------------------------------------------------------------------

  function Field(row: Row, i: nat): Node
    requires i < |row|
  {
    Element(Column(i), map[], [Text(row[i])])
  }

  /** The columns of a row from the i-th on, each as an element. */
  function Fields(row: Row, i: nat := 0): seq<Node>
    requires i <= |row|
    decreases |row| - i
  {
    if i == |row| then [] else [Field(row, i)] + Fields(row, i + 1)
  }

  /** Looking a name up among the fields of a row finds its value, or nothing if it is no column. */
  lemma {:induction false} FieldLookup(row: Row, i: nat, name: Name)
    requires i <= |row|
    ensures ElementsByName(Fields(row, i), name) ==
      if name.Column? && i <= name.index < |row| then [Field(row, name.index)] else []
    decreases |row| - i
  {
    if i < |row| {
      FieldLookup(row, i + 1, name);
      assert Fields(row, i)[1..] == Fields(row, i + 1);
      assert ElementsByName([Text(row[i])], name) == [] by {
        assert [Text(row[i])][1..] == [];
      }
    }
  }

  lemma {:induction false} ElementsOfConcat(a: seq<Node>, b: seq<Node>, name: Name)
    ensures ElementsByName(a + b, name) == ElementsByName(a, name) + ElementsByName(b, name)
  {
    if |a| == 0 {
      assert a + b == b;
    } else {
      assert (a + b)[1..] == a[1..] + b;
      ElementsOfConcat(a[1..], b, name);
    }
  }

  /** A flat run of same-named leaves is found whole, or not at all. */
  lemma {:induction false} LeavesLookup(leaves: seq<Node>, leaf: Name, name: Name)
    requires forall i | 0 <= i < |leaves| :: leaves[i].Element? && leaves[i].name == leaf && leaves[i].children == []
    ensures ElementsByName(leaves, name) == if name == leaf then leaves else []
  {
    if |leaves| > 0 {
      LeavesLookup(leaves[1..], leaf, name);
      assert leaves == [leaves[0]] + leaves[1..];
    }
  }

  /** A single element is found by its own name, with whatever its contents add. */
  lemma ElementLookup(e: Node, name: Name)
    requires e.Element?
    ensures ElementsByName([e], name) ==
      if e.name == name then [e] + ElementsByName(e.children, name) else ElementsByName(e.children, name)
  {
    assert [e][1..] == [];
    assert ElementsByName(e.children, name) + [] == ElementsByName(e.children, name);
  }

  lemma FourParts(a: seq<Node>, b: seq<Node>, c: seq<Node>, d: seq<Node>, name: Name)
    ensures ElementsByName(a + b + c + d, name)
      == ElementsByName(a, name) + ElementsByName(b, name) + ElementsByName(c, name) + ElementsByName(d, name)
  {
    ElementsOfConcat(a + b + c, d, name);
    ElementsOfConcat(a + b, c, name);
    ElementsOfConcat(a, b, name);
  }

  /** When only one of four parts contributes to a search, it is all that is found. */
  lemma OnePart(a: seq<Node>, b: seq<Node>, c: seq<Node>, d: seq<Node>, name: Name)
    ensures var fa, fb := ElementsByName(a, name), ElementsByName(b, name);
      var fc, fd := ElementsByName(c, name), ElementsByName(d, name);
      var found := ElementsByName(a + b + c + d, name);
      && (fb == fc == fd == [] ==> found == fa)
      && (fa == fc == fd == [] ==> found == fb)
      && (fa == fb == fd == [] ==> found == fc)
      && (fa == fb == fc == [] ==> found == fd)
  {
    FourParts(a, b, c, d, name);
  }
}
