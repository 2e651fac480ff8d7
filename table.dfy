/**
 * The `SortableTable` widget: its fields `_header`, `_data`, `element` and
 * `subElements`, the public `sort` and `destroy`, and the header click handler.
 * The DOM element is held abstractly as its header cells and its body rows.
 */
module Table {
  import opened Wrappers
  import opened Values
  import opened Schema
  import opened SortEngine
  import opened Render

  /** The rendered element: header cells (with their live `data-order` and arrows)
      and the body rows. */
  datatype Dom = Dom(cells: seq<HeadCell>, body: seq<seq<Cell>>)

  // ---------------------------------------------------------------------------
  // `sort(fieldValue, orderValue = 'asc')`, as a function of the header and the data

  /** What a call of `sort` does to `_data`: nothing, a replacement, or a throw. */
  datatype SortStep = Unchanged | Resorted(rows: seq<Row>) | Rejected(error: Error)

  /** The sort key of every row has the type its column's `sortType` compares: a
      number for 'number', a string for 'string'. */
  predicate KeysTyped(header: seq<Column>, data: seq<Row>, field: string)
  {
    match Find(header, field)
    case None => true
    case Some(i) =>
      header[i].sortable ==>
        forall k :: 0 <= k < |data| ==>
          (header[i].sortType == "number" ==> Getter(field, Obj(data[k])).Num?) &&
          (header[i].sortType == "string" ==> Getter(field, Obj(data[k])).Str?)
  }

  /** What a call `sort(field, order)` needs of the rows: when the order is valid, so
      that a comparator can be built and rows compared, the keys have the column's type.
      A bad order throws before any key is read, so then nothing is needed.
      Floating-point NaN arithmetic and `localeCompare` on non-strings are not
      modelled, so callers must meet this. */
  predicate KeysFit(header: seq<Column>, data: seq<Row>, field: string, order: string)
  {
    (order == "asc" || order == "desc") ==> KeysTyped(header, data, field)
  }

  /** The effect of `sort(field, order)`: find the column (a missing one makes the
      destructuring throw), do nothing for a column that is not sortable, otherwise
      build the comparator (which may throw) and sort a copy of the rows.
      Every way it can end: it throws exactly for a missing column, or for a sortable
      column with a bad order or a bad sort type (the order is checked first); it leaves
      the rows alone exactly for a column that is not sortable, whatever the order;
      otherwise it replaces them by a reordering of the same rows. */
  function PlanSort(header: seq<Column>, data: seq<Row>, field: string, order: string := "asc"): (step: SortStep)
    requires KeysFit(header, data, field, order)
    ensures var found := Find(header, field);
            var goodOrder := order == "asc" || order == "desc";
            var goodType := found.Some? && (header[found.value].sortType == "number" || header[found.value].sortType == "string");
            && (found.None? ==> step == Rejected(ColumnNotFound(field)))
            && (step.Unchanged? <==> found.Some? && !header[found.value].sortable)
            && (found.Some? && header[found.value].sortable && !goodOrder ==> step == Rejected(WrongOrder(order)))
            && (found.Some? && header[found.value].sortable && goodOrder && !goodType ==>
                  step == Rejected(WrongSortType(header[found.value].sortType)))
            && (step.Resorted? <==> found.Some? && header[found.value].sortable && goodOrder && goodType)
            && (step.Resorted? ==> multiset(step.rows) == multiset(data))
  {
    match Find(header, field)
    case None => Rejected(ColumnNotFound(field))
    case Some(i) =>
      if !header[i].sortable then Unchanged
      else match MakeCompare(header[i].sortType, field, order)
        case Failure(e) => Rejected(e)
        case Success(c) => Resorted(MakeSorting(c, data))
  }

  /** A bad order on a sortable column throws before any key is read: `sort` rejects it
      and leaves the rows alone, whatever the rows hold. */
  lemma BadOrderIgnoresRows(header: seq<Column>, data: seq<Row>, field: string, order: string)
    requires Find(header, field).Some? && header[Find(header, field).value].sortable
    requires order != "asc" && order != "desc"
    ensures KeysFit(header, data, field, order)
    ensures PlanSort(header, data, field, order) == Rejected(WrongOrder(order))
  {
  }

  /** A sortable 'number' column sorted 'asc' leaves the rows in non-decreasing key
      order, and 'desc' in non-increasing key order; the rows are the same rows. */
  lemma NumberSortOrders(header: seq<Column>, data: seq<Row>, field: string, order: string)
    requires KeysFit(header, data, field, order)
    requires Find(header, field).Some?
    requires header[Find(header, field).value].sortable
    requires header[Find(header, field).value].sortType == "number"
    requires order == "asc" || order == "desc"
    ensures PlanSort(header, data, field, order).Resorted?
    ensures var rows := PlanSort(header, data, field, order).rows;
            multiset(rows) == multiset(data) &&
            forall p, q :: 0 <= p < q < |rows| ==>
              Getter(field, Obj(rows[p])).Num? && Getter(field, Obj(rows[q])).Num? &&
              (order == "asc" ==> Getter(field, Obj(rows[p])).n <= Getter(field, Obj(rows[q])).n) &&
              (order == "desc" ==> Getter(field, Obj(rows[p])).n >= Getter(field, Obj(rows[q])).n)
  {
    var c := MakeCompare("number", field, order).value;
    var rows := MakeSorting(c, data);
    assert PlanSort(header, data, field, order) == Resorted(rows);
    forall p, q | 0 <= p < q < |rows| {
      SortedKeys(c, rows, p, q);
    }
  }

  /** A sortable 'string' column sorted 'asc' leaves the rows in collation order of
      their keys, and 'desc' in the reverse of it. */
  lemma StringSortOrders(header: seq<Column>, data: seq<Row>, field: string, order: string)
    requires KeysFit(header, data, field, order)
    requires Find(header, field).Some?
    requires header[Find(header, field).value].sortable
    requires header[Find(header, field).value].sortType == "string"
    requires order == "asc" || order == "desc"
    ensures PlanSort(header, data, field, order).Resorted?
    ensures var rows := PlanSort(header, data, field, order).rows;
            multiset(rows) == multiset(data) &&
            forall p, q :: 0 <= p < q < |rows| ==>
              Getter(field, Obj(rows[p])).Str? && Getter(field, Obj(rows[q])).Str? &&
              (order == "asc" ==> LexCompare(Getter(field, Obj(rows[p])).s, Getter(field, Obj(rows[q])).s) <= 0) &&
              (order == "desc" ==> LexCompare(Getter(field, Obj(rows[p])).s, Getter(field, Obj(rows[q])).s) >= 0)
  {
    var c := MakeCompare("string", field, order).value;
    var rows := MakeSorting(c, data);
    assert PlanSort(header, data, field, order) == Resorted(rows);
    forall p, q | 0 <= p < q < |rows| {
      SortedKeys(c, rows, p, q);
    }
  }

  /** Sorting again by the same column and order changes nothing. */
  lemma SortIdempotent(header: seq<Column>, data: seq<Row>, field: string, order: string)
    requires KeysFit(header, data, field, order)
    requires PlanSort(header, data, field, order).Resorted?
    ensures KeysFit(header, PlanSort(header, data, field, order).rows, field, order)
    ensures PlanSort(header, PlanSort(header, data, field, order).rows, field, order)
         == PlanSort(header, data, field, order)
  {
    var i := Find(header, field).value;
    var c := MakeCompare(header[i].sortType, field, order).value;
    var rows := MakeSorting(c, data);
    forall k | 0 <= k < |rows| ensures Fits(c, rows[k]) && Getter(field, Obj(rows[k])) == Key(c, rows[k]) {
      assert rows[k] in multiset(data);
    }
    SortSortedIsIdentity(c, rows);
  }

  /** When no two different rows share a sort key, 'desc' gives exactly the reverse
      of 'asc'. */
  lemma DescReversesAsc(header: seq<Column>, data: seq<Row>, field: string)
    requires KeysTyped(header, data, field)
    requires PlanSort(header, data, field, "asc").Resorted?
    requires forall k, l ::
               0 <= k < |data| && 0 <= l < |data| && Getter(field, Obj(data[k])) == Getter(field, Obj(data[l])) ==>
                 data[k] == data[l]
    ensures PlanSort(header, data, field, "desc").Resorted?
    ensures PlanSort(header, data, field, "desc").rows == Rev(PlanSort(header, data, field, "asc").rows)
  {
    var i := Find(header, field).value;
    var up := MakeCompare(header[i].sortType, field, "asc").value;
    var down := MakeCompare(header[i].sortType, field, "desc").value;
    assert down == Reversed(up);
    forall x, y | x in data && y in data && Fits(up, x) && Fits(up, y) && Compare(up, x, y) == 0
      ensures x == y
    {
      if up.kind == StringSort {
        LexZero(Key(up, x).s, Key(up, y).s);
      }
    }
    OppositeDirectionReverses(up, data);
  }

  // ---------------------------------------------------------------------------
  // The header click: `handleSortClick(event)`

  /** The order a click stores: 'asc' becomes 'desc', anything else becomes 'asc'. */
  function Flip(order: string): (flipped: string)
    ensures flipped == "asc" || flipped == "desc"
    ensures (order == "asc" || order == "desc") ==> flipped != order
  {
    if order == "asc" then "desc" else "asc"
  }

  /** Flipping a valid order flips the sign of its direction, and two flips restore it. */
  lemma FlipDirection(order: string)
    requires order == "asc" || order == "desc"
    ensures GetDirection(Flip(order)).Success? && GetDirection(order).Success?
    ensures GetDirection(Flip(order)).value + GetDirection(order).value == 0
    ensures Flip(Flip(order)) == order
  {
  }

  /** `event.target.closest('[data-sortable="true"]')`: the index of the header cell
      containing the click target when that cell is sortable, else nothing. */
  function ClosestSortable(cells: seq<HeadCell>, target: Option<nat>): (hit: Option<nat>)
    ensures hit.Some? <==> target.Some? && target.value < |cells| && cells[target.value].sortable
    ensures hit.Some? ==> hit == target
  {
    if target.Some? && target.value < |cells| && cells[target.value].sortable then target else None
  }

  /** The click's flip of the clicked cell's `data-order`: that cell's order flips and
      nothing else about any cell changes. */
  function FlipOrderAt(cells: seq<HeadCell>, i: nat): (flipped: seq<HeadCell>)
    requires i < |cells|
    ensures |flipped| == |cells|
    ensures flipped[i].order == Flip(cells[i].order) && flipped[i].(order := cells[i].order) == cells[i]
    ensures forall k :: 0 <= k < |cells| && k != i ==> flipped[k] == cells[k]
  {
    cells[i := cells[i].(order := Flip(cells[i].order))]
  }

  /** Every arrow removed, then one inserted into cell `i`: cell `i` is the only cell
      with an arrow, and nothing else about any cell changes. */
  function ArrowOnlyAt(cells: seq<HeadCell>, i: nat): (redrawn: seq<HeadCell>)
    requires i < |cells|
    ensures |redrawn| == |cells|
    ensures forall k :: 0 <= k < |cells| ==> (redrawn[k].arrow <==> k == i)
    ensures forall k :: 0 <= k < |cells| ==> redrawn[k].(arrow := cells[k].arrow) == cells[k]
  {
    seq(|cells|, k requires 0 <= k < |cells| => cells[k].(arrow := k == i))
  }

  /** The cells that hold an arrow. */
  function ArrowCells(cells: seq<HeadCell>): set<nat>
  {
    set k: nat | k < |cells| && cells[k].arrow
  }

  /** After the arrows are redrawn exactly one cell holds one: the clicked cell. */
  lemma ExactlyOneArrow(cells: seq<HeadCell>, i: nat)
    requires i < |cells|
    ensures ArrowCells(ArrowOnlyAt(cells, i)) == {i}
  {
  }

  /** Before any click the arrows sit in the cells of the columns with id 'title'. */
  lemma InitialArrowCells(header: seq<Column>)
    ensures ArrowCells(TableHead(header)) == set k: nat | k < |header| && header[k].id == "title"
  {
  }

  /** A click flips only the clicked cell's order; every other cell keeps the order it
      remembers. On a freshly rendered header the first click asks for 'desc', and a
      second click on the same cell for 'asc' again. */
  lemma ClickOrderMemory(header: seq<Column>, i: nat)
    requires i < |header|
    ensures var once := FlipOrderAt(TableHead(header), i);
            && once[i].order == "desc"
            && GetDirection(once[i].order) == Success(-1)
            && FlipOrderAt(once, i)[i].order == "asc"
            && forall k :: 0 <= k < |header| && k != i ==> once[k] == TableHead(header)[k]
  {
  }

  /** The header cells show the columns in order, each with a valid order. */
  predicate CellsShow(cells: seq<HeadCell>, header: seq<Column>)
  {
    && |cells| == |header|
    && forall k :: 0 <= k < |header| ==>
         cells[k].id == header[k].id && cells[k].sortable == header[k].sortable &&
         (cells[k].order == "asc" || cells[k].order == "desc")
  }

  /** A click's flip and arrow redraw keep the cells showing the columns. */
  lemma ClickKeepsCells(cells: seq<HeadCell>, header: seq<Column>, i: nat)
    requires CellsShow(cells, header) && i < |cells|
    ensures CellsShow(FlipOrderAt(cells, i), header)
    ensures CellsShow(ArrowOnlyAt(FlipOrderAt(cells, i), i), header)
  {
  }

  // ---------------------------------------------------------------------------
  // The widget

  class SortableTable {
    var header: seq<Column>
    var data: seq<Row>
    var element: Option<Dom>
    var subElements: map<string, nat>

    /** The element, while it exists, shows one header cell per column with a valid
        order and shows `data` in its body; `subElements` finds the body. After
        `destroy` both are cleared. */
    ghost predicate Valid()
      reads this
    {
      match element
      case None => subElements == map[]
      case Some(dom) =>
        && "body" in subElements
        && CellsShow(dom.cells, header)
        && dom.body == TableBody(header, data)
    }

    /** `new SortableTable(header, { data })` once the header is known to be set. */
    constructor (header: seq<Column>, data: seq<Row> := [])
      ensures Valid()
      ensures this.header == header && this.data == data
      ensures element == Some(Dom(TableHead(header), TableBody(header, data)))
      ensures IndexesLast(subElements, SubElementNames(header))
    {
      this.header := header;
      this.data := data;
      element := None;
      subElements := map[];
      new;
      Render();
    }

    /** The constructor's header check: a missing header throws; any array, even an
        empty one, is accepted. A missing `data` defaults to no rows. */
    static method Create(header: Option<seq<Column>>, data: Option<seq<Row>>)
      returns (r: Result<SortableTable, Error>)
      ensures r.Failure? <==> header.None?
      ensures r.Failure? ==> r.error == HeaderNotSet
      ensures r.Success? ==> fresh(r.value) && r.value.Valid()
      ensures r.Success? ==> r.value.header == header.value
      ensures r.Success? ==> r.value.data == if data.Some? then data.value else []
      ensures r.Success? ==> r.value.element == Some(Dom(TableHead(header.value), TableBody(header.value, r.value.data)))
      ensures r.Success? ==> IndexesLast(r.value.subElements, SubElementNames(header.value))
    {
      if header.None? {
        return Failure(HeaderNotSet);
      }
      var table := new SortableTable(header.value, if data.Some? then data.value else []);
      return Success(table);
    }

    /** `render()`: build the element from the header and the data, and index its
        named regions. */
    method Render()
      modifies this
      ensures Valid()
      ensures header == old(header) && data == old(data)
      ensures element == Some(Dom(TableHead(header), TableBody(header, data)))
      ensures IndexesLast(subElements, SubElementNames(header))
    {
      element := Some(Dom(TableHead(header), TableBody(header, data)));
      subElements := GetSubElements(SubElementNames(header));
      TemplateElementNames(header);
    }

    /** `sort(fieldValue, orderValue = 'asc')`. `_data` is reassigned only once the
        comparator is built; the body is then redrawn through `subElements.body`, which
        throws after `destroy` has cleared it (the rows stay replaced). */
    method Sort(field: string, order: string := "asc") returns (r: Outcome<Error>)
      requires Valid()
      requires KeysFit(header, data, field, order)
      modifies this
      ensures Valid()
      ensures header == old(header) && subElements == old(subElements)
      ensures match PlanSort(old(header), old(data), field, order)
        case Unchanged => r == Pass && data == old(data) && element == old(element)
        case Rejected(e) => r == Fail(e) && data == old(data) && element == old(element)
        case Resorted(rows) =>
          && data == rows
          && (if "body" in old(subElements)
              then r == Pass && element == Some(old(element).value.(body := TableBody(header, rows)))
              else r == Fail(BodyMissing) && element == old(element))
    {
      match PlanSort(header, data, field, order)
      case Unchanged =>
        r := Pass;
      case Rejected(e) =>
        r := Fail(e);
      case Resorted(rows) =>
        data := rows;
        if "body" in subElements {
          element := Some(element.value.(body := TableBody(header, rows)));
          r := Pass;
        } else {
          r := Fail(BodyMissing);
        }
    }

    /** `handleSortClick(event)`, with the event reduced to the index of the header cell
        that contains its target (`None` for a target outside every cell). A target
        outside every sortable cell throws. Otherwise the cell's order is flipped, the
        rows are sorted by its column with the new order, and, if that did not throw,
        the arrow is moved into the clicked cell. */
    method HandleSortClick(target: Option<nat>) returns (r: Outcome<Error>)
      requires Valid() && element.Some?
      requires target.Some? && target.value < |element.value.cells| && element.value.cells[target.value].sortable ==>
                 KeysFit(header, data, element.value.cells[target.value].id, Flip(element.value.cells[target.value].order))
      modifies this
      ensures Valid()
      ensures header == old(header) && subElements == old(subElements)
      ensures ClosestSortable(old(element).value.cells, target).None? ==>
                r == Fail(NoSortableCell) && data == old(data) && element == old(element)
      ensures ClosestSortable(old(element).value.cells, target).Some? ==>
        var i := target.value;
        var cells := FlipOrderAt(old(element).value.cells, i);
        match PlanSort(old(header), old(data), cells[i].id, cells[i].order)
        case Unchanged =>
          r == Pass && data == old(data) && element == Some(Dom(ArrowOnlyAt(cells, i), old(element).value.body))
        case Rejected(e) =>
          r == Fail(e) && data == old(data) && element == Some(Dom(cells, old(element).value.body))
        case Resorted(rows) =>
          r == Pass && data == rows && element == Some(Dom(ArrowOnlyAt(cells, i), TableBody(header, rows)))
    {
      var hit := ClosestSortable(element.value.cells, target);
      if hit.None? {
        return Fail(NoSortableCell);
      }
      var i := hit.value;
      var cells := FlipOrderAt(element.value.cells, i);
      ClickKeepsCells(element.value.cells, header, i);
      element := Some(element.value.(cells := cells));
      r := Sort(cells[i].id, cells[i].order);
      if r.Pass? {
        element := Some(element.value.(cells := ArrowOnlyAt(cells, i)));
      }
    }

    /** `destroy()`: the element is released and the sub-element table emptied. */
    method Destroy()
      requires Valid()
      modifies this
      ensures Valid()
      ensures element == None && subElements == map[]
      ensures header == old(header) && data == old(data)
    {
      element := None;
      subElements := map[];
    }
  }
}
