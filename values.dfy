/**
 * The JavaScript values that table rows hold, and the dotted-path accessor
 * `createGetter` that the sort engine uses to pull a sort key out of a row.
 */
module Values {

  /** A JavaScript value. Numbers are integers here: floating point is not modelled. */
  datatype Value =
    | Undefined
    | Null
    | Bool(b: bool)
    | Num(n: int)
    | Str(s: string)
    | Obj(fields: map<string, Value>)

  /** JavaScript truthiness: `undefined`, `null`, `false`, `0` and `""` are falsy. */
  predicate Truthy(v: Value)
  {
    match v
    case Undefined => false
    case Null => false
    case Bool(b) => b
    case Num(n) => n != 0
    case Str(s) => s != ""
    case Obj(_) => true
  }

  /** Property read `v[key]` on a value that is neither `null` nor `undefined`.
      Only own properties of objects are modelled: an inherited member such as
      `constructor` reads as `undefined`. */
  function Prop(v: Value, key: string): Value
  {
    if v.Obj? && key in v.fields then v.fields[key] else Undefined
  }

  // ---------------------------------------------------------------------------
  // `path.split('.')`

  /** The pieces of `s` between the dots, as `String.prototype.split('.')` gives them:
      the empty string splits into one empty piece, and every dot starts a new piece. */
  function Split(s: string): (parts: seq<string>)
    ensures |parts| >= 1
    ensures forall k :: 0 <= k < |parts| ==> '.' !in parts[k]
  {
    if s == [] then [""]
    else
      var rest := Split(s[1..]);
      if s[0] == '.' then [""] + rest
      else [[s[0]] + rest[0]] + rest[1..]
  }

  /** `parts.join('.')`, the inverse of `Split`. */
  function Join(parts: seq<string>): string
    requires |parts| >= 1
  {
    if |parts| == 1 then parts[0] else parts[0] + "." + Join(parts[1..])
  }

  /** Number of dots in `s`. */
  function Dots(s: string): nat
  {
    if s == [] then 0 else (if s[0] == '.' then 1 else 0) + Dots(s[1..])
  }

  /** Splitting yields one more piece than there are dots. */
  lemma {:induction false} SplitCount(s: string)
    ensures |Split(s)| == Dots(s) + 1
  {
    if s != [] {
      SplitCount(s[1..]);
    }
  }

  /** Joining the pieces gives back the path. */
  lemma {:induction false} JoinSplit(s: string)
    ensures Join(Split(s)) == s
  {
    if s != [] {
      JoinSplit(s[1..]);
      var rest := Split(s[1..]);
      if s[0] != '.' {
        if |rest| == 1 {
          assert Join(Split(s)) == [s[0]] + rest[0];
        } else {
          assert Join(Split(s)) == [s[0]] + rest[0] + "." + Join(rest[1..]);
          assert Join(rest) == rest[0] + "." + Join(rest[1..]);
        }
        assert [s[0]] + s[1..] == s;
      }
    }
  }

  /** A dot-free prefix glues onto the first piece of what follows it. */
  lemma {:induction false} SplitPrefix(a: string, t: string)
    requires '.' !in a
    ensures Split(a + t) == [a + Split(t)[0]] + Split(t)[1..]
  {
    if a != [] {
      SplitPrefix(a[1..], t);
      var s := a + t;
      assert s[0] == a[0] && s[0] != '.';
      assert s[1..] == a[1..] + t;
      var rest := Split(s[1..]);
      assert Split(s) == [[s[0]] + rest[0]] + rest[1..];
      assert rest[0] == a[1..] + Split(t)[0];
      assert [a[0]] + (a[1..] + Split(t)[0]) == a + Split(t)[0];
    } else {
      assert a + t == t && a + Split(t)[0] == Split(t)[0];
      assert [Split(t)[0]] + Split(t)[1..] == Split(t);
    }
  }

  /** A path without dots is a single key. */
  lemma SplitNoDot(a: string)
    requires '.' !in a
    ensures Split(a) == [a]
  {
    SplitPrefix(a, "");
    assert a + "" == a;
  }

  /** The first dot of a path ends its first key. */
  lemma SplitFirstDot(a: string, rest: string)
    requires '.' !in a
    ensures Split(a + "." + rest) == [a] + Split(rest)
  {
    var t := "." + rest;
    SplitPrefix(a, t);
    assert a + "." + rest == a + t;
    assert t[0] == '.' && t[1..] == rest;
    assert Split(t) == [""] + Split(rest);
    assert a + "" == a;
  }

  /** Splitting the joined pieces gives the pieces back, when no piece has a dot. */
  lemma {:induction false} SplitJoin(parts: seq<string>)
    requires |parts| >= 1
    requires forall k :: 0 <= k < |parts| ==> '.' !in parts[k]
    ensures Split(Join(parts)) == parts
  {
    if |parts| == 1 {
      SplitNoDot(parts[0]);
    } else {
      SplitJoin(parts[1..]);
      SplitFirstDot(parts[0], Join(parts[1..]));
      assert [parts[0]] + parts[1..] == parts;
    }
  }

  // ---------------------------------------------------------------------------
  // `createGetter(path)`: `pathKeys.reduce((item, key) => item ? item[key] : item, obj)`

  /** One step of the reduction: read `key` from a truthy value, keep a falsy one. */
  function Step(item: Value, key: string): Value
  {
    if Truthy(item) then Prop(item, key) else item
  }

  /** The left-to-right fold of `Step` over `keys`. */
  function Walk(v: Value, keys: seq<string>): Value
    decreases |keys|
  {
    if keys == [] then v else Walk(Step(v, keys[0]), keys[1..])
  }

  /** The getter `createGetter(path)` returns, applied to `obj`: the fold of `Step`
      over the pieces of the path. A falsy `obj` comes back unchanged, and a path
      without dots reads that one key, `obj[path]`. */
  function Getter(path: string, obj: Value): (r: Value)
    ensures !Truthy(obj) ==> r == obj
    ensures '.' !in path ==> r == Step(obj, path)
  {
    var keys := Split(path);
    if !Truthy(obj) then
      FalsyStops(obj, keys);
      Walk(obj, keys)
    else if '.' !in path then
      SplitNoDot(path);
      assert Walk(obj, [path]) == Walk(Step(obj, path), []);
      Walk(obj, keys)
    else
      Walk(obj, keys)
  }

  /** Once an intermediate value is falsy it is the result, whatever keys remain. */
  lemma {:induction false} FalsyStops(v: Value, keys: seq<string>)
    requires !Truthy(v)
    ensures Walk(v, keys) == v
    decreases |keys|
  {
    if keys != [] {
      FalsyStops(Step(v, keys[0]), keys[1..]);
    }
  }

  /** Walking a concatenated key list walks the first part, then the second. */
  lemma {:induction false} WalkAppend(v: Value, a: seq<string>, b: seq<string>)
    ensures Walk(v, a + b) == Walk(Walk(v, a), b)
    decreases |a|
  {
    if a != [] {
      assert (a + b)[0] == a[0] && (a + b)[1..] == a[1..] + b;
      WalkAppend(Step(v, a[0]), a[1..], b);
    } else {
      assert a + b == b;
    }
  }

  /** A dotted path reads its first key, then the rest of the path from there. */
  lemma GetterNested(first: string, rest: string, obj: Value)
    requires '.' !in first
    ensures Getter(first + "." + rest, obj) == Getter(rest, Step(obj, first))
  {
    SplitFirstDot(first, rest);
  }

  /** A row that lacks an intermediate object yields `undefined` instead of failing:
      `profile.score` on a row without `profile`. */
  lemma MissingIntermediate(row: map<string, Value>, first: string, rest: string)
    requires '.' !in first && first !in row
    ensures Getter(first + "." + rest, Obj(row)) == Undefined
  {
    GetterNested(first, rest, Obj(row));
    FalsyStops(Undefined, Split(rest));
  }
}
