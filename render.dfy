/**
 * The renderer, abstractly: the header cells, the body rows and the table of named
 * sub-elements that the widget's markup produces. Markup strings, CSS classes and
 * the row link are presentation only and are not modelled.
 */
module Render {
  import opened Wrappers
  import opened Values
  import opened Schema

  /** A header cell: its `data-id`, `data-sortable` and `data-order` attributes, its
      title text, and whether it holds a sort arrow. */
  datatype HeadCell = HeadCell(id: string, sortable: bool, order: string, title: string, arrow: bool)

  /** A body cell: a column's template applied to the raw value, or the default cell
      showing the raw value. */
  datatype Cell = Custom(template: string, arg: Value) | Plain(content: Value)

  /** `getSortArrowForItem(item)`, as the `data-element` names of the markup it returns:
      the arrow for the column whose id is 'title', nothing for any other. */
  function SortArrowForItem(column: Column): (names: seq<string>)
    ensures names == [] || names == ["arrow"]
    ensures names != [] <==> column.id == "title"
  {
    if column.id == "title" then ["arrow"] else []
  }

  /** The header cell `getTableHead` renders for one column. */
  function HeadCellFor(column: Column): HeadCell
  {
    HeadCell(column.id, column.sortable, "asc", column.title, SortArrowForItem(column) != [])
  }

  /** `getTableHead(header)`: one cell per column, in column order, each starting at
      order 'asc', an arrow only in the cells of columns with id 'title'. */
  function TableHead(header: seq<Column>): (cells: seq<HeadCell>)
    ensures |cells| == |header|
    ensures forall k :: 0 <= k < |header| ==>
      cells[k].id == header[k].id && cells[k].sortable == header[k].sortable &&
      cells[k].title == header[k].title && cells[k].order == "asc"
    ensures forall k :: 0 <= k < |header| ==> (cells[k].arrow <==> header[k].id == "title")
  {
    if header == [] then [] else [HeadCellFor(header[0])] + TableHead(header[1..])
  }

  /** The cell `getRow` renders for one column: the template applied to `row[id]`,
      or the default cell; `id` is a plain key, not a dotted path. */
  function CellFor(column: Column, row: Row): Cell
  {
    match column.template
    case Some(t) => Custom(t, Lookup(row, column.id))
    case None => Plain(Lookup(row, column.id))
  }

  /** `getRow(data)`: one cell per column, in column order. */
  function GetRow(header: seq<Column>, row: Row): (cells: seq<Cell>)
    ensures |cells| == |header|
    ensures forall k :: 0 <= k < |header| ==>
      cells[k] == if header[k].template.Some?
                  then Custom(header[k].template.value, Lookup(row, header[k].id))
                  else Plain(Lookup(row, header[k].id))
  {
    if header == [] then [] else [CellFor(header[0], row)] + GetRow(header[1..], row)
  }

  /** `getTableBody(data)`: one rendered row per data row, in data order. */
  function TableBody(header: seq<Column>, data: seq<Row>): (body: seq<seq<Cell>>)
    ensures |body| == |data|
    ensures forall i :: 0 <= i < |data| ==> body[i] == GetRow(header, data[i])
  {
    if data == [] then [] else [GetRow(header, data[0])] + TableBody(header, data[1..])
  }

  /** A cell shows the plain key `row[id]` while sorting reads the dotted path: for a
      column such as 'profile.score' on a row with a `profile` object and no key
      'profile.score', the default cell shows `undefined` while the sort key is read
      from inside `profile`. */
  lemma CellIgnoresDottedPath(column: Column, row: Row, first: string, rest: string)
    requires column.template.None? && column.id == first + "." + rest && '.' !in first
    requires first in row && column.id !in row
    ensures CellFor(column, row) == Plain(Undefined)
    ensures Getter(column.id, Obj(row)) == Getter(rest, row[first])
  {
    GetterNested(first, rest, Obj(row));
  }

  // ---------------------------------------------------------------------------
  // `getSubElements`

  /** One "arrow" per column whose header cell starts with an arrow. */
  function InitialArrows(header: seq<Column>): seq<string>
  {
    if header == [] then []
    else SortArrowForItem(header[0]) + InitialArrows(header[1..])
  }

  /** The `data-element` names below the rendered root, in document order: the header
      region, the arrows inside its cells, then the body, loading and placeholder regions.
      The root itself carries `productsContainer`, but `querySelectorAll` searches only
      the root's descendants, so that name is not among them. Templates supplied by
      columns are opaque and contribute none. */
  function SubElementNames(header: seq<Column>): seq<string>
  {
    ["header"] + InitialArrows(header) + ["body", "loading", "emptyPlaceholder"]
  }

  /** Below the root the template names four regions, plus "arrow" exactly when some
      column has the id 'title'; the root's own `productsContainer` is not among them. */
  lemma TemplateElementNames(header: seq<Column>)
    ensures (set x | x in SubElementNames(header))
         == {"header", "body", "loading", "emptyPlaceholder"}
            + (if exists k :: 0 <= k < |header| && header[k].id == "title" then {"arrow"} else {})
  {
    var arrows := InitialArrows(header);
    ArrowNames(header);
    assert SubElementNames(header) == ["header"] + arrows + ["body", "loading", "emptyPlaceholder"];
    assert forall x :: x in arrows ==> x == "arrow";
    if arrows != [] {
      assert arrows[0] == "arrow";
    }
  }

  /** The arrow names are all "arrow", and there is one exactly when a 'title' column exists. */
  lemma {:induction false} ArrowNames(header: seq<Column>)
    ensures forall k :: 0 <= k < |InitialArrows(header)| ==> InitialArrows(header)[k] == "arrow"
    ensures InitialArrows(header) != [] <==> exists k :: 0 <= k < |header| && header[k].id == "title"
  {
    if header != [] {
      ArrowNames(header[1..]);
      if header[0].id != "title" && exists k :: 0 <= k < |header| && header[k].id == "title" {
        var k :| 0 <= k < |header| && header[k].id == "title";
        assert header[1..][k - 1].id == "title";
      }
    }
  }

  /** `sub` indexes the named nodes: its keys are exactly the names, and each name maps
      to the position of the last node that carries it. */
  predicate IndexesLast(sub: map<string, nat>, names: seq<string>)
  {
    && sub.Keys == (set x | x in names)
    && (forall x :: x in sub ==> sub[x] < |names| && names[sub[x]] == x)
    && (forall x :: x in sub ==> forall j :: sub[x] < j < |names| ==> names[j] != x)
  }

  /** `getSubElements(element)`: each distinct `data-element` name mapped to the node
      carrying it; nodes are identified by their position in document order, and for a
      repeated name the last node wins. */
  method GetSubElements(names: seq<string>) returns (sub: map<string, nat>)
    ensures IndexesLast(sub, names)
  {
    sub := map[];
    var i := 0;
    while i < |names|
      invariant 0 <= i <= |names|
      invariant sub.Keys == set x | x in names[..i]
      invariant forall x :: x in sub ==> sub[x] < i && names[sub[x]] == x
      invariant forall x :: x in sub ==> forall j :: sub[x] < j < i ==> names[j] != x
    {
      assert names[..i + 1] == names[..i] + [names[i]];
      sub := sub[names[i] := i];
      i := i + 1;
    }
    assert names[..i] == names;
  }
}
