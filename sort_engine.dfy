/**
 * The sort engine: `getDirection`, `makeCompare` and `makeSorting`.
 * A comparator is kept as data (its kind, its direction and the dotted key path
 * its getter walks) so that its properties can be stated; `Compare` applies it.
 */
module SortEngine {
  import opened Wrappers
  import opened Values
  import opened Schema

  /** The multiplier `getDirection` returns: +1 or -1. */
  type Sign = d: int | d == 1 || d == -1 witness 1

  /** `getDirection(orderValue)`: 'asc' gives 1, 'desc' gives -1, anything else throws. */
  function GetDirection(order: string): (r: Result<Sign, Error>)
    ensures r.Success? <==> order == "asc" || order == "desc"
    ensures r.Success? ==> (r.value == 1 <==> order == "asc")
    ensures r.Failure? ==> r.error == WrongOrder(order)
  {
    if order == "asc" then Success(1)
    else if order == "desc" then Success(-1)
    else Failure(WrongOrder(order))
  }

  datatype SortKind = NumberSort | StringSort

  /** The comparator `makeCompare` builds: `direction * (getter(a) - getter(b))` for
      numbers, `direction * getter(a).localeCompare(getter(b))` for strings. The sort
      itself does not look into the records, so it is stated for any record type `R`. */
  datatype Comparator<!R> = Comparator(kind: SortKind, direction: Sign, getter: R -> Value)

  /** The getter `createGetter(fieldValue)` returns, applied to a table row. */
  function RowGetter(field: string): Row -> Value
  {
    (row: Row) => Getter(field, Obj(row))
  }

  /** `makeCompare(sortType, fieldValue, orderValue)`. The order is checked first,
      so a bad order is reported even when the sort type is bad too. */
  function MakeCompare(sortType: string, field: string, order: string): (r: Result<Comparator<Row>, Error>)
    ensures r.Success? <==> (order == "asc" || order == "desc") && (sortType == "number" || sortType == "string")
    ensures order != "asc" && order != "desc" ==> r == Failure(WrongOrder(order))
    ensures (order == "asc" || order == "desc") && r.Failure? ==> r.error == WrongSortType(sortType)
    ensures r.Success? ==> r.value.getter == RowGetter(field)
    ensures r.Success? ==> forall row :: r.value.getter(row) == Getter(field, Obj(row))
    ensures r.Success? ==> (r.value.kind == NumberSort <==> sortType == "number")
    ensures r.Success? ==> (r.value.direction == 1 <==> order == "asc")
  {
    match GetDirection(order)
    case Failure(e) => Failure(e)
    case Success(d) =>
      var getter := RowGetter(field);
      if sortType == "number" then Success(Comparator(NumberSort, d, getter))
      else if sortType == "string" then Success(Comparator(StringSort, d, getter))
      else Failure(WrongSortType(sortType))
  }

  /** The sort key of a row: the comparator's getter applied to the row. */
  function Key<R>(c: Comparator<R>, row: R): Value
  {
    c.getter(row)
  }

  /** The row's key has the type the comparator subtracts or collates. */
  predicate Fits<R>(c: Comparator<R>, row: R)
  {
    match c.kind
    case NumberSort => Key(c, row).Num?
    case StringSort => Key(c, row).Str?
  }

  predicate AllFit<R>(c: Comparator<R>, rows: seq<R>)
  {
    forall k :: 0 <= k < |rows| ==> Fits(c, rows[k])
  }

  // ---------------------------------------------------------------------------
  // String collation: `localeCompare` is modelled as lexicographic order on characters.

  /** Negative, zero or positive as `a` sorts before, with, or after `b`. */
  function LexCompare(a: string, b: string): (r: int)
    ensures -1 <= r <= 1
  {
    if a == [] && b == [] then 0
    else if a == [] then -1
    else if b == [] then 1
    else if a[0] < b[0] then -1
    else if a[0] > b[0] then 1
    else LexCompare(a[1..], b[1..])
  }

  lemma {:induction false} LexAntisymmetric(a: string, b: string)
    ensures LexCompare(a, b) == -LexCompare(b, a)
  {
    if a != [] && b != [] && a[0] == b[0] {
      LexAntisymmetric(a[1..], b[1..]);
    }
  }

  lemma {:induction false} LexZero(a: string, b: string)
    ensures LexCompare(a, b) == 0 <==> a == b
  {
    if a != [] && b != [] && a[0] == b[0] {
      LexZero(a[1..], b[1..]);
      assert a == [a[0]] + a[1..] && b == [b[0]] + b[1..];
    }
  }

  lemma {:induction false} LexTransitive(a: string, b: string, c: string)
    requires LexCompare(a, b) <= 0 && LexCompare(b, c) <= 0
    ensures LexCompare(a, c) <= 0
  {
    if a != [] && b != [] && c != [] && a[0] == b[0] && b[0] == c[0] {
      LexTransitive(a[1..], b[1..], c[1..]);
    }
  }

  /** The comparator applied to two rows: zero exactly when their keys are equal, and
      negative exactly when `a`'s key comes first in the comparator's direction. */
  function Compare<R>(c: Comparator<R>, a: R, b: R): (r: int)
    requires Fits(c, a) && Fits(c, b)
    ensures r == 0 <==> Key(c, a) == Key(c, b)
    ensures c.kind == NumberSort ==>
              (r < 0 <==> if c.direction == 1 then Key(c, a).n < Key(c, b).n else Key(c, b).n < Key(c, a).n)
    ensures c.kind == StringSort ==>
              (r < 0 <==> if c.direction == 1 then LexCompare(Key(c, a).s, Key(c, b).s) < 0
                          else LexCompare(Key(c, b).s, Key(c, a).s) < 0)
  {
    // `direction * ascending`, written as a case split on the sign
    match c.kind
    case NumberSort =>
      var ascending := Key(c, a).n - Key(c, b).n;
      if c.direction == 1 then ascending else -ascending
    case StringSort =>
      LexZero(Key(c, a).s, Key(c, b).s);
      LexAntisymmetric(Key(c, a).s, Key(c, b).s);
      var ascending := LexCompare(Key(c, a).s, Key(c, b).s);
      if c.direction == 1 then ascending else -ascending
  }

  /** Swapping the arguments negates the comparison. */
  lemma CompareAntisymmetric<R>(c: Comparator<R>, a: R, b: R)
    requires Fits(c, a) && Fits(c, b)
    ensures Compare(c, a, b) == -Compare(c, b, a)
  {
    if c.kind == StringSort {
      LexAntisymmetric(Key(c, a).s, Key(c, b).s);
    }
  }

  /** "Sorts no later than" is transitive. */
  lemma CompareTransitive<R>(c: Comparator<R>, a: R, b: R, d: R)
    requires Fits(c, a) && Fits(c, b) && Fits(c, d)
    requires Compare(c, a, b) <= 0 && Compare(c, b, d) <= 0
    ensures Compare(c, a, d) <= 0
  {
    if c.kind == StringSort {
      var sa, sb, sd := Key(c, a).s, Key(c, b).s, Key(c, d).s;
      if c.direction == 1 {
        LexTransitive(sa, sb, sd);
      } else {
        LexAntisymmetric(sa, sb);
        LexAntisymmetric(sb, sd);
        LexAntisymmetric(sa, sd);
        LexTransitive(sd, sb, sa);
      }
    }
  }

  /** The same comparator with the opposite direction. */
  function Reversed<R>(c: Comparator<R>): Comparator<R>
  {
    c.(direction := if c.direction == 1 then -1 else 1)
  }

  /** Flipping the direction negates every comparison. */
  lemma ReversedCompare<R>(c: Comparator<R>, a: R, b: R)
    requires Fits(c, a) && Fits(c, b)
    ensures Fits(Reversed(c), a) && Fits(Reversed(c), b)
    ensures Compare(Reversed(c), a, b) == -Compare(c, a, b)
  {
  }

  // ---------------------------------------------------------------------------
  // `makeSorting(array, compare)`: `[...array].sort(compare)`, modelled by a stable
  // insertion sort that builds a new sequence.

  /** `s` is ordered by the comparator. */
  predicate Sorted<R>(c: Comparator<R>, s: seq<R>)
  {
    AllFit(c, s) && forall i, j :: 0 <= i < j < |s| ==> Compare(c, s[i], s[j]) <= 0
  }

  /** `x` placed before the first row of sorted `s` that it does not sort after. */
  function Insert<R>(c: Comparator<R>, x: R, s: seq<R>): (r: seq<R>)
    requires Fits(c, x) && AllFit(c, s)
    ensures multiset(r) == multiset(s) + multiset{x}
    ensures AllFit(c, r)
  {
    if s == [] then [x]
    else if Compare(c, x, s[0]) <= 0 then [x] + s
    else
      assert s == [s[0]] + s[1..];
      [s[0]] + Insert(c, x, s[1..])
  }

  /** A row that sorts no later than every row of a sorted sequence can head it. */
  lemma SortedCons<R>(c: Comparator<R>, y: R, t: seq<R>)
    requires Fits(c, y) && Sorted(c, t)
    requires forall k :: 0 <= k < |t| ==> Compare(c, y, t[k]) <= 0
    ensures Sorted(c, [y] + t)
  {
  }

  /** A row that sorts before `x` and before every row of `s` sorts before every row of
      `Insert(c, x, s)`. */
  lemma InsertBelow<R>(c: Comparator<R>, y: R, x: R, s: seq<R>)
    requires Fits(c, y) && Fits(c, x) && AllFit(c, s)
    requires Compare(c, y, x) <= 0
    requires forall k :: 0 <= k < |s| ==> Compare(c, y, s[k]) <= 0
    ensures forall k :: 0 <= k < |Insert(c, x, s)| ==> Compare(c, y, Insert(c, x, s)[k]) <= 0
  {
    var t := Insert(c, x, s);
    forall k | 0 <= k < |t| ensures Compare(c, y, t[k]) <= 0 {
      assert t[k] in multiset(s) + multiset{x};
      if t[k] != x {
        assert t[k] in s;
      }
    }
  }

  lemma {:induction false} InsertSorted<R>(c: Comparator<R>, x: R, s: seq<R>)
    requires Fits(c, x) && Sorted(c, s)
    ensures Sorted(c, Insert(c, x, s))
    decreases |s|
  {
    if s == [] {
    } else if Compare(c, x, s[0]) <= 0 {
      forall k | 0 <= k < |s| ensures Compare(c, x, s[k]) <= 0 {
        if k > 0 {
          CompareTransitive(c, x, s[0], s[k]);
        }
      }
      SortedCons(c, x, s);
    } else {
      var tail := s[1..];
      InsertSorted(c, x, tail);
      CompareAntisymmetric(c, x, s[0]);
      assert forall k :: 0 <= k < |tail| ==> tail[k] == s[k + 1];
      InsertBelow(c, s[0], x, tail);
      SortedCons(c, s[0], Insert(c, x, tail));
    }
  }

  /** `makeSorting`: a new sequence holding the same rows, ordered by the comparator. */
  function MakeSorting<R>(c: Comparator<R>, rows: seq<R>): (sorted: seq<R>)
    requires AllFit(c, rows)
    ensures multiset(sorted) == multiset(rows)
    ensures Sorted(c, sorted)
  {
    if rows == [] then []
    else
      var rest := MakeSorting(c, rows[1..]);
      assert rows == [rows[0]] + rows[1..];
      InsertSorted(c, rows[0], rest);
      Insert(c, rows[0], rest)
  }

  /** What `Sorted` means for the keys: under a number comparator the keys ascend
      for sign 1 and descend for sign -1; under a string comparator they do so in
      collation order. */
  lemma SortedKeys<R>(c: Comparator<R>, rows: seq<R>, p: nat, q: nat)
    requires Sorted(c, rows) && p < q < |rows|
    ensures c.kind == NumberSort ==> Key(c, rows[p]).Num? && Key(c, rows[q]).Num?
    ensures c.kind == NumberSort && c.direction == 1 ==> Key(c, rows[p]).n <= Key(c, rows[q]).n
    ensures c.kind == NumberSort && c.direction == -1 ==> Key(c, rows[p]).n >= Key(c, rows[q]).n
    ensures c.kind == StringSort ==> Key(c, rows[p]).Str? && Key(c, rows[q]).Str?
    ensures c.kind == StringSort && c.direction == 1 ==> LexCompare(Key(c, rows[p]).s, Key(c, rows[q]).s) <= 0
    ensures c.kind == StringSort && c.direction == -1 ==> LexCompare(Key(c, rows[p]).s, Key(c, rows[q]).s) >= 0
  {
    assert Compare(c, rows[p], rows[q]) <= 0;
  }

  /** The rows of `s` that tie with `pivot`, in their order in `s`. */
  function Ties<R>(c: Comparator<R>, s: seq<R>, pivot: R): seq<R>
    requires AllFit(c, s) && Fits(c, pivot)
  {
    if s == [] then []
    else (if Compare(c, s[0], pivot) == 0 then [s[0]] else []) + Ties(c, s[1..], pivot)
  }

  /** `Ties` of a sequence with a given first row. */
  lemma TiesCons<R>(c: Comparator<R>, y: R, t: seq<R>, pivot: R)
    requires Fits(c, y) && AllFit(c, t) && Fits(c, pivot)
    ensures AllFit(c, [y] + t)
    ensures Ties(c, [y] + t, pivot) == (if Compare(c, y, pivot) == 0 then [y] else []) + Ties(c, t, pivot)
  {
    assert ([y] + t)[0] == y && ([y] + t)[1..] == t;
  }

  lemma {:induction false} InsertTies<R>(c: Comparator<R>, x: R, s: seq<R>, pivot: R)
    requires Fits(c, x) && AllFit(c, s) && Fits(c, pivot)
    ensures Ties(c, Insert(c, x, s), pivot)
         == (if Compare(c, x, pivot) == 0 then [x] else []) + Ties(c, s, pivot)
    decreases |s|
  {
    if s == [] {
      TiesCons(c, x, [], pivot);
    } else if Compare(c, x, s[0]) <= 0 {
      TiesCons(c, x, s, pivot);
    } else {
      var tail := s[1..];
      InsertTies(c, x, tail, pivot);
      TiesCons(c, s[0], Insert(c, x, tail), pivot);
      TiesCons(c, s[0], tail, pivot);
      assert s == [s[0]] + tail;
      var tx := if Compare(c, x, pivot) == 0 then [x] else [];
      var ty := if Compare(c, s[0], pivot) == 0 then [s[0]] else [];
      if tx != [] && ty != [] {
        assert false;
      }
      SwapAroundEmpty(tx, ty, Ties(c, tail, pivot));
    }
  }

  /** Two pieces of which one is empty may be put in either order. */
  lemma SwapAroundEmpty<R>(p: seq<R>, q: seq<R>, t: seq<R>)
    requires p == [] || q == []
    ensures q + (p + t) == p + (q + t)
  {
    if p == [] {
      assert p + t == t && q + t == p + (q + t);
    } else {
      assert q + t == t && q + (p + t) == p + t;
    }
  }

  /** The sort is stable: rows that tie keep their relative order. */
  lemma {:induction false} SortStable<R>(c: Comparator<R>, rows: seq<R>, pivot: R)
    requires AllFit(c, rows) && Fits(c, pivot)
    ensures Ties(c, MakeSorting(c, rows), pivot) == Ties(c, rows, pivot)
  {
    if rows != [] {
      SortStable(c, rows[1..], pivot);
      InsertTies(c, rows[0], MakeSorting(c, rows[1..]), pivot);
    }
  }

  /** Sorting rows that are already in order gives them back unchanged. */
  lemma {:induction false} SortSortedIsIdentity<R>(c: Comparator<R>, rows: seq<R>)
    requires Sorted(c, rows)
    ensures MakeSorting(c, rows) == rows
  {
    if rows != [] {
      SortSortedIsIdentity(c, rows[1..]);
      assert rows == [rows[0]] + rows[1..];
    }
  }

  // ---------------------------------------------------------------------------
  // Sorting the other way round

  /** Rows tie only when they are the same row. */
  predicate TiesOnlyIdentical<R(==)>(c: Comparator<R>, s: seq<R>)
  {
    forall x, y :: x in s && y in s && Fits(c, x) && Fits(c, y) && Compare(c, x, y) == 0 ==> x == y
  }

  /** The first row of a sorted sequence sorts no later than any of its rows. */
  lemma HeadFirst<R>(c: Comparator<R>, a: seq<R>, y: R)
    requires Sorted(c, a) && y in a
    ensures Fits(c, y) && Compare(c, a[0], y) <= 0
  {
    var i :| 0 <= i < |a| && a[i] == y;
    if i == 0 {
      CompareAntisymmetric(c, y, y);
    }
  }

  /** Dropping the same first row from two arrangements of the same rows leaves
      arrangements of the same rows. */
  lemma SameTails<R>(a: seq<R>, b: seq<R>)
    requires a != [] && b != [] && a[0] == b[0] && multiset(a) == multiset(b)
    ensures multiset(a[1..]) == multiset(b[1..])
  {
    assert a == [a[0]] + a[1..] && b == [b[0]] + b[1..];
    assert multiset(a) == multiset([a[0]]) + multiset(a[1..]);
    assert multiset(b) == multiset([a[0]]) + multiset(b[1..]);
    assert multiset(a[1..]) == multiset(a) - multiset([a[0]]);
    assert multiset(b[1..]) == multiset(b) - multiset([a[0]]);
  }

  /** The tail of a sorted sequence is sorted. */
  lemma SortedDrop<R>(c: Comparator<R>, a: seq<R>)
    requires a != [] && Sorted(c, a)
    ensures Sorted(c, a[1..])
  {
  }

  /** The tail of a sorted sequence in which only identical rows tie is one too. */
  lemma SortedTail<R>(c: Comparator<R>, a: seq<R>)
    requires a != [] && Sorted(c, a) && TiesOnlyIdentical(c, a)
    ensures Sorted(c, a[1..]) && TiesOnlyIdentical(c, a[1..])
  {
    SortedDrop(c, a);
  }

  /** Two sequences with the same first element and the same tail are equal. */
  lemma SameHeadAndTail<R>(a: seq<R>, b: seq<R>)
    requires a != [] && b != [] && a[0] == b[0] && a[1..] == b[1..]
    ensures a == b
  {
    assert a == [a[0]] + a[1..] && b == [b[0]] + b[1..];
  }

  /** Two sorted arrangements of the same rows start with the same row when only
      identical rows tie. */
  lemma SameHead<R>(c: Comparator<R>, a: seq<R>, b: seq<R>)
    requires a != [] && Sorted(c, a) && Sorted(c, b) && multiset(a) == multiset(b)
    requires TiesOnlyIdentical(c, a)
    ensures b != [] && a[0] == b[0]
  {
    assert |a| == |multiset(a)| == |b|;
    assert b[0] in multiset(a) && a[0] in multiset(b);
    HeadFirst(c, a, b[0]);
    HeadFirst(c, b, a[0]);
    CompareAntisymmetric(c, a[0], b[0]);
  }

  /** Two sorted arrangements of the same rows are equal when only identical rows tie. */
  lemma {:induction false} SortedUnique<R>(c: Comparator<R>, a: seq<R>, b: seq<R>)
    requires Sorted(c, a) && Sorted(c, b) && multiset(a) == multiset(b)
    requires TiesOnlyIdentical(c, a)
    ensures a == b
    decreases |a|
  {
    assert |a| == |multiset(a)| == |b|;
    if a != [] {
      SameHead(c, a, b);
      SameTails(a, b);
      SortedTail(c, a);
      SortedDrop(c, b);
      SortedUnique(c, a[1..], b[1..]);
      SameHeadAndTail(a, b);
    }
  }

  /** The rows of `s` in the opposite order. */
  function Rev<R>(s: seq<R>): (r: seq<R>)
    ensures |r| == |s|
    ensures multiset(r) == multiset(s)
  {
    if s == [] then []
    else
      assert s == [s[0]] + s[1..];
      Rev(s[1..]) + [s[0]]
  }

  lemma {:induction false} RevAt<R>(s: seq<R>, k: nat)
    requires k < |s|
    ensures Rev(s)[k] == s[|s| - 1 - k]
  {
    if k < |s| - 1 {
      RevAt(s[1..], k);
    }
  }

  /** A sequence sorted one way is, read backwards, sorted the other way. */
  lemma RevSorted<R>(c: Comparator<R>, s: seq<R>)
    requires Sorted(c, s)
    ensures Sorted(Reversed(c), Rev(s))
  {
    var r := Rev(s);
    var n := |s|;
    forall k | 0 <= k < n ensures r[k] == s[n - 1 - k] {
      RevAt(s, k);
    }
    forall i, j | 0 <= i < j < n ensures Compare(Reversed(c), r[i], r[j]) <= 0 {
      ReversedCompare(c, r[i], r[j]);
      CompareAntisymmetric(c, r[i], r[j]);
      assert Compare(c, s[n - 1 - j], s[n - 1 - i]) <= 0;
    }
  }

  /** When only identical rows tie, sorting in the opposite direction gives exactly the
      reverse order. */
  lemma OppositeDirectionReverses<R>(c: Comparator<R>, rows: seq<R>)
    requires AllFit(c, rows) && TiesOnlyIdentical(c, rows)
    ensures AllFit(Reversed(c), rows)
    ensures MakeSorting(Reversed(c), rows) == Rev(MakeSorting(c, rows))
  {
    var up := MakeSorting(c, rows);
    var down := MakeSorting(Reversed(c), rows);
    RevSorted(c, up);
    forall x, y | x in down && y in down && Fits(Reversed(c), x) && Fits(Reversed(c), y)
      && Compare(Reversed(c), x, y) == 0
      ensures x == y
    {
      assert x in multiset(rows) && y in multiset(rows);
      ReversedCompare(c, x, y);
    }
    SortedUnique(Reversed(c), down, Rev(up));
  }
}
