/**
 * The table's schema and dataset: the column definitions passed as `header`,
 * the rows passed as `data`, and the errors the widget throws.
 */
module Schema {
  import opened Wrappers
  import opened Values

  /** A data row: a record keyed by property name. */
  type Row = map<string, Value>

  /** One entry of `header`. `template` names the column's custom cell renderer;
      its body is opaque to the model. `sortType` is kept as the raw string so
      that an unsupported value can be rejected as the widget does. */
  datatype Column = Column(
    id: string,
    title: string,
    sortable: bool,
    sortType: string,
    template: Option<string>)

  /** The errors the widget throws. */
  datatype Error =
    | HeaderNotSet                  // constructor without a header
    | ColumnNotFound(field: string) // `sort` on an id no column has
    | WrongOrder(order: string)     // an order other than 'asc' or 'desc'
    | WrongSortType(sortType: string)
    | NoSortableCell                // a header click outside every sortable cell
    | BodyMissing                   // `sort` after `destroy` has cleared the sub-elements

  /** `header.find(cell => cell.id === field)`, as the index of the column found. */
  function Find(header: seq<Column>, field: string): (r: Option<nat>)
    ensures r.None? <==> forall k :: 0 <= k < |header| ==> header[k].id != field
    ensures r.Some? ==> r.value < |header| && header[r.value].id == field
    ensures r.Some? ==> forall k :: 0 <= k < r.value ==> header[k].id != field
  {
    if header == [] then None
    else if header[0].id == field then Some(0)
    else match Find(header[1..], field)
      case None => None
      case Some(k) => Some(k + 1)
  }

  /** The value a plain (undotted) key lookup `row[id]` gives. */
  function Lookup(row: Row, id: string): Value
  {
    if id in row then row[id] else Undefined
  }
}
