# SortableTable, modelled in Dafny

This project models the `SortableTable` widget from
`06-events-practice/1-sortable-table-v2/index.js`. The widget takes a column schema (`header`)
and a list of row records (`data`). It renders a header row and one body row per record. Clicking
a sortable header cell re-sorts the rows by that column.

The model follows the widget's parts:

- `wrappers.dfy`, module `Wrappers`: `Option`, `Result` and `Outcome`. A `Failure`/`Fail` stands for
  a JavaScript `throw`.
- `values.dfy`, module `Values`: JavaScript values as rows hold them, and JavaScript truthiness.
  It also holds `path.split('.')` and the dotted-path getter `createGetter` builds (`Getter`, a
  left-to-right fold of `Step`).
- `schema.dfy`, module `Schema`: the column record, the row type, the widget's errors, and
  `header.find(...)`.
- `sort_engine.dfy`, module `SortEngine`: `getDirection`, `makeCompare` and `makeSorting`.
  A comparator is data: its kind, its sign and the getter closure `createGetter` returns.
  `Compare` applies it. `makeSorting` is a stable insertion sort that returns a new sequence.
  The sort never looks inside a record, so it is stated for any record type.
- `render.dfy`, module `Render`: the header cells, the body rows and the `data-element` lookup
  table, as abstract cells rather than markup.
- `table.dfy`, module `Table`: the `SortableTable` class. Its fields are `header` (`_header`),
  `data` (`_data`), `element` (the rendered tree, abstractly) and `subElements`. Its methods are
  the constructor, `Render`, `Sort`, `HandleSortClick` and `Destroy`. `PlanSort` states, as a
  function of the header and the rows, what one `sort` call does to `_data`. The lemmas about
  sorting and clicking are stated over `PlanSort` and the click's cell functions.

Four behaviours of the code that a reader might not expect:

- The constructor's own check throws only when `header` is missing. An empty array is truthy in
  JavaScript, so an empty header is accepted (`Table.SortableTable.Create`). The other ways the
  constructor can throw are listed under "Left out".
- A header click whose target is outside every sortable cell is not ignored. `closest` returns
  `null` and reading `dataset` from it throws. The model returns `Fail(NoSortableCell)` and
  changes nothing.
- A click flips the cell's stored order before sorting. If the sort then throws (an unsupported
  `sortType`), the flipped order stays and the arrow does not move.
- `sort` after `destroy` on a sortable column still replaces `_data`. It then throws when it
  writes the body through the emptied `subElements` (`Fail(BodyMissing)`).

Header cells are identified by their position, so ids need not be unique. The initial arrow is
drawn in every cell whose column id is `'title'`.

Rows and the header are values in the model. `Sort` reassigns `data` to a new sorted sequence,
as `makeSorting` sorts a copy; sharing with the caller is listed under "Left out".

## Model

| member | source | states |
|---|---|---|
| `Values.Split` | 06-events-practice/1-sortable-table-v2/index.js:160 | splitting a path on `.` yields at least one piece and no piece contains a dot |
| `Values.SplitCount` | 06-events-practice/1-sortable-table-v2/index.js:160 | a path splits into one more piece than it has dots |
| `Values.JoinSplit` | 06-events-practice/1-sortable-table-v2/index.js:160 | joining the pieces with `.` gives the path back |
| `Values.SplitJoin` | 06-events-practice/1-sortable-table-v2/index.js:160 | splitting joined dot-free pieces gives the same pieces back |
| `Values.FalsyStops` | 06-events-practice/1-sortable-table-v2/index.js:161-163 | once an intermediate value is falsy, the getter returns it unchanged whatever keys remain |
| `Values.WalkAppend` | 06-events-practice/1-sortable-table-v2/index.js:162 | the key fold runs left to right: folding `a + b` folds `a`, then `b` |
| `Values.Getter` | 06-events-practice/1-sortable-table-v2/index.js:159-164 | the getter `createGetter(path)` returns: a falsy object comes back unchanged, and a path without dots reads that one key of a truthy object (`obj[path]`); with `GetterNested` and `FalsyStops` this fixes the result for every path |
| `Values.GetterNested` | 06-events-practice/1-sortable-table-v2/index.js:159-164 | a dotted path reads its first key, then the rest of the path from that value |
| `Values.MissingIntermediate` | 06-events-practice/1-sortable-table-v2/index.js:162 | a row missing an intermediate object yields `undefined` rather than failing |
| `Schema.Find` | 06-events-practice/1-sortable-table-v2/index.js:112-114 | the index found is the first column with the id; nothing is found only when no column has it |
| `SortEngine.GetDirection` | 06-events-practice/1-sortable-table-v2/index.js:142-153 | `'asc'` gives 1, `'desc'` gives -1, and every other string is rejected with that string |
| `SortEngine.MakeCompare` | 06-events-practice/1-sortable-table-v2/index.js:124-140 | the comparator is built exactly for a valid order and a `number` or `string` type; a bad order is reported before a bad type; its sign follows the order, and its getter reads the field's dotted path from the row |
| `SortEngine.CompareAntisymmetric` | 06-events-practice/1-sortable-table-v2/index.js:128-136 | swapping the two rows negates both comparators, so the comparator is consistent |
| `SortEngine.CompareTransitive` | 06-events-practice/1-sortable-table-v2/index.js:128-136 | "sorts no later than" is transitive for both sort types and both directions |
| `SortEngine.Compare` | 06-events-practice/1-sortable-table-v2/index.js:130-136 | the comparator gives zero exactly for equal keys, and a negative value exactly when the first row's key comes first: numerically for `number`, in collation order for `string`, reversed for direction -1 |
| `SortEngine.ReversedCompare` | 06-events-practice/1-sortable-table-v2/index.js:131-135 | the opposite direction negates every comparison |
| `SortEngine.SortedKeys` | 06-events-practice/1-sortable-table-v2/index.js:128-136 | in a sorted sequence, keys ascend for sign 1 and descend for sign -1: numerically for a number comparator, in collation order for a string comparator |
| `SortEngine.MakeSorting` | 06-events-practice/1-sortable-table-v2/index.js:155-157 | the result is a permutation of the input rows, ordered by the comparator |
| `SortEngine.SortStable` | 06-events-practice/1-sortable-table-v2/index.js:156 | rows that tie keep their relative order |
| `SortEngine.SortSortedIsIdentity` | 06-events-practice/1-sortable-table-v2/index.js:156 | sorting rows that are already in order returns them unchanged |
| `SortEngine.SortedUnique` | 06-events-practice/1-sortable-table-v2/index.js:156 | when only identical rows tie, there is a single sorted arrangement of a given collection of rows |
| `SortEngine.OppositeDirectionReverses` | 06-events-practice/1-sortable-table-v2/index.js:155-157 | when only identical rows tie, sorting with the opposite sign gives exactly the reversed sequence |
| `Render.TableHead` | 06-events-practice/1-sortable-table-v2/index.js:67-76 | one header cell per column in column order, carrying the column's id, sortability and title, with order `'asc'`, and an arrow exactly when the id is `'title'` |
| `Render.GetRow` | 06-events-practice/1-sortable-table-v2/index.js:88-97 | one cell per column in column order: the column's template applied to the plain key `row[id]` if it has one, else the default cell with `row[id]` |
| `Render.TableBody` | 06-events-practice/1-sortable-table-v2/index.js:78-86 | one rendered row per data row, in data order |
| `Render.CellIgnoresDottedPath` | 06-events-practice/1-sortable-table-v2/index.js:88-97 | a default cell reads the plain key, not the dotted path: for an id `first.rest` absent as a key, the cell shows `undefined` while the sort key is read from inside `row[first]` |
| `Render.SortArrowForItem` | 06-events-practice/1-sortable-table-v2/index.js:173-179 | a header cell's markup holds one arrow node exactly when its column id is `'title'`, and none otherwise |
| `Render.TemplateElementNames` | 06-events-practice/1-sortable-table-v2/index.js:37-56 | below the root `productsContainer` node, the template names `header`, `body`, `loading` and `emptyPlaceholder`, plus `arrow` exactly when some column has id `'title'`; the root's own name is not among them |
| `Render.GetSubElements` | 06-events-practice/1-sortable-table-v2/index.js:58-65 | every distinct `data-element` name is a key, and it maps to the last node with that name |
| `Table.PlanSort` | 06-events-practice/1-sortable-table-v2/index.js:111-122 | `sort` throws exactly for a missing column, or for a sortable column with a bad order (checked first, whatever the rows hold) or a bad type; it leaves the rows alone exactly for a non-sortable column, whatever the order; otherwise it replaces them by a permutation |
| `Table.BadOrderIgnoresRows` | 06-events-practice/1-sortable-table-v2/index.js:117-118 | a bad order on a sortable column is rejected with `WrongOrder` whatever the rows hold, since no key is read before `getDirection` throws |
| `Table.NumberSortOrders` | 06-events-practice/1-sortable-table-v2/index.js:128-132 | a sortable `number` column sorted `'asc'` leaves the keys non-decreasing, and `'desc'` non-increasing, over the same rows |
| `Table.StringSortOrders` | 06-events-practice/1-sortable-table-v2/index.js:133-136 | a sortable `string` column sorted `'asc'` leaves the keys in collation order, and `'desc'` in reverse collation order |
| `Table.SortIdempotent` | 06-events-practice/1-sortable-table-v2/index.js:117-120 | sorting the sorted rows again by the same column and order returns the same rows |
| `Table.DescReversesAsc` | 06-events-practice/1-sortable-table-v2/index.js:124-132 | when no two different rows share a key, `'desc'` gives exactly the reverse of `'asc'` |
| `Table.Flip` | 06-events-practice/1-sortable-table-v2/index.js:26 | a click always stores a valid order, and a valid order always changes |
| `Table.FlipDirection` | 06-events-practice/1-sortable-table-v2/index.js:26 | a click's flip turns a valid order into the other one, negating its direction; two flips restore it |
| `Table.ClosestSortable` | 06-events-practice/1-sortable-table-v2/index.js:25 | the click finds a cell exactly when its target lies in a header cell that is sortable, and then it is that cell |
| `Table.FlipOrderAt` | 06-events-practice/1-sortable-table-v2/index.js:26 | the clicked cell's order is flipped and nothing else about any cell changes |
| `Table.ArrowOnlyAt` | 06-events-practice/1-sortable-table-v2/index.js:29-30 | after the redraw the clicked cell is the only one with an arrow, and nothing else about any cell changes |
| `Table.ExactlyOneArrow` | 06-events-practice/1-sortable-table-v2/index.js:29-30 | after the arrows are redrawn, exactly one cell holds an arrow, the clicked one |
| `Table.InitialArrowCells` | 06-events-practice/1-sortable-table-v2/index.js:173-179 | before any click the arrows are exactly in the cells of columns whose id is `'title'` |
| `Table.ClickOrderMemory` | 06-events-practice/1-sortable-table-v2/index.js:26-27 | on a fresh header the first click on a cell asks for `'desc'` (direction -1), a second click for `'asc'`, and other cells keep their order |
| `Table.SortableTable.constructor` | 06-events-practice/1-sortable-table-v2/index.js:6-15 | the table stores the header and the rows and renders the header cells and the body; `subElements` holds exactly the template's `data-element` names below the root, each mapped to the last node with that name |
| `Table.SortableTable.Create` | 06-events-practice/1-sortable-table-v2/index.js:6-11 | a missing header throws `HeaderNotSet`; any header array is accepted, and missing data defaults to no rows; a created table is rendered, with its header cells, its body and `subElements` as the constructor gives them |
| `Table.SortableTable.Render` | 06-events-practice/1-sortable-table-v2/index.js:17-22 | the element shows the header cells and the body rows; `subElements` holds exactly the template's `data-element` names below the root (not `productsContainer`), each mapped to the last node with that name |
| `Table.SortableTable.Sort` | 06-events-practice/1-sortable-table-v2/index.js:111-122 | `_data` and the body change only as `PlanSort` says; every throw leaves them as they were, except that after `destroy` the rows are replaced before the body write throws |
| `Table.SortableTable.HandleSortClick` | 06-events-practice/1-sortable-table-v2/index.js:24-31 | a click outside every sortable cell throws and changes nothing; otherwise the cell's order flips, the rows are sorted with the new order, and unless that threw, the arrow is only in the clicked cell |
| `Table.SortableTable.Destroy` | 06-events-practice/1-sortable-table-v2/index.js:105-109 | the element becomes null and `subElements` empty; header and rows are kept |

## Left out

- DOM work is not modelled: `document.createElement`, `innerHTML`, `querySelectorAll`,
  `insertAdjacentHTML`, node removal and `addEventListener`. These are browser APIs.
  `initEventListeners` (lines 33-35) is not modelled: the click handler is modelled directly.
  `remove()` (lines 99-103) only detaches the element from the page and is not modelled.
- Markup strings, CSS classes, whitespace and the fixed row link (`href`) are presentation only.
- `Table.SortableTable.Sort`: requires `KeysFit`. When the order is `'asc'` or `'desc'`, every
  sort key of a sortable `number` column must be a number, and of a `string` column a string. A
  bad order throws before any key is read, so it needs nothing of the rows. For other keys,
  JavaScript converts both keys of a subtraction with ToNumber (`null` to 0, `true` to 1, `"10"`
  to 10, `undefined` or a non-numeric string to `NaN`). `localeCompare` throws when the left key
  is not a string and converts the right key with ToString. Which rows the engine compares is
  not specified, so these outcomes are not modelled. The requirement also covers data with fewer
  than two rows, where the engine never calls the comparator and JavaScript sorts a key of any
  type without error; the model does not cover that case. `Table.PlanSort` carries the same
  requirement, and so does `Table.SortableTable.HandleSortClick` for a click on a sortable cell,
  with the flipped order; a click on any other cell reads no key and needs nothing.
- `_header` and `_data` share the caller's array and row objects (`this._header = header`,
  `this._data = data`). A change the caller later makes to them in place is seen by the next
  `sort`. The model holds the header and the rows as values, so this aliasing is not modelled.
- `Table.NumberSortOrders`: numbers are unbounded integers, not IEEE doubles.
- `Table.StringSortOrders`: `localeCompare` with the `['ru', 'en']` locales and
  `caseFirst: 'upper'` is modelled as lexicographic order on character codes. Locale collation
  is a foreign library.
- `SortEngine.MakeSorting`: `Array.prototype.sort` is a foreign library. It is modelled by a
  stable insertion sort. The ECMAScript standard requires that sort to be stable, so for a
  consistent comparator both produce the same arrangement. Equality with the engine's own
  arrangement is not proved in general. It follows from `SortEngine.SortedUnique` only when
  ties are between identical rows.
- The bodies of column `template` functions are opaque. A cell records the template's name and
  its argument. Any `data-element` attributes a template might emit are not modelled.
- `Values.Step`: reading a property of a truthy primitive (a string's `length` or characters,
  number or boolean prototype members) yields `undefined` in the model. So does reading a key
  an object only inherits: `row['constructor']` or `row['toString']` is a truthy function in
  JavaScript but `undefined` here. `Values.Prop` and the plain key read `Schema.Lookup` used by
  the body cells (`row[id]`) have the same limit.
- `Table.SortableTable.Create`: only a missing `data` defaults to no rows. An explicit
  `data: null` passes the default and makes `render` throw inside `getTableBody`; the model's
  `Option` cannot express that value, so that throw is not modelled. Neither are two more throws
  of the constructor: a truthy `header` that is not an array fails at `header.map` during
  `render`, and an explicit `null` options argument cannot be destructured. The model's header is
  always a sequence of columns and its options are always an object.
- Column titles and default cell values are taken as plain text. The widget writes them into
  `innerHTML` unescaped, so markup inside them creates nodes, and a `data-element` attribute there
  would add to or take over a `subElements` entry by the last-match rule. That markup is not
  modelled; `SubElementNames` lists only the template's own named nodes.
- `subElements` entries point at positions in the initial document. The `arrow` entry goes stale
  once a click removes that arrow node; this staleness is not modelled.
