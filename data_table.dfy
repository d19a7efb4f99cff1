/** The admin data table of components/admin/shared/data-table.tsx: how a
    cell's value is looked up from a row, including dotted paths such as
    `user.name`, and how many cells the loading and empty states span. Rows
    are JavaScript records; rendered output is an opaque node type `N`. */
module DataTable {
  import opened Wrappers
  import JsText

  /** The JavaScript values a row can hold. */
  datatype JsValue =
    | Null
    | Undefined
    | Str(s: string)
    | Num(n: int)
    | Bool(b: bool)
    | Obj(fields: map<string, JsValue>)

  type Row = map<string, JsValue>

  predicate Nullish(v: JsValue) {
    v.Null? || v.Undefined?
  }

  /** `v ?? ""`. */
  function OrEmpty(v: JsValue): (r: JsValue)
    ensures !Nullish(r)
    ensures !Nullish(v) ==> r == v
  {
    if Nullish(v) then Str("") else v
  }

  /** Property access `v[key]` on a value that is not null or undefined: an
      object's own field, or `undefined`. */
  function Get(v: JsValue, key: string): (r: JsValue)
    ensures v.Obj? && key in v.fields ==> r == v.fields[key]
    ensures !(v.Obj? && key in v.fields) ==> r == Undefined
  {
    if v.Obj? && key in v.fields then v.fields[key] else Undefined
  }

  /** Following a path of property names: a null or undefined met before a
      remaining segment ends the walk with `undefined`. */
  function Lookup(v: JsValue, path: seq<string>): (r: JsValue)
    ensures path == [] ==> r == v
    ensures |path| == 1 ==> r == (if Nullish(v) then Undefined else Get(v, path[0]))
    ensures path != [] && !v.Obj? ==> r == Undefined
    decreases |path|
  {
    if path == [] then v
    else if Nullish(v) then Undefined
    else Lookup(Get(v, path[0]), path[1..])
  }

  /** A column: its key, its header, and optionally its own renderer. */
  datatype Column<N> = Column(key: string, header: string, render: Option<Row -> N>)

  /** A cell shows either a rendered node or a value. */
  datatype Cell<N> = Rendered(node: N) | Text(value: JsValue)

  /** `getCellValue`. */
  function CellValue<N>(item: Row, column: Column<N>): (r: Cell<N>)
    ensures column.render.Some? ==> r == Rendered(column.render.value(item))
    ensures column.render.None? ==> r.Text? && !Nullish(r.value)
  {
    if column.render.Some? then Rendered(column.render.value(item))
    else if '.' in column.key then Text(OrEmpty(Lookup(Obj(item), JsText.Split(column.key, '.'))))
    else Text(PlainCell(item, column.key))
  }

  /** The plain-key branch, `item[key] ?? ""`. */
  function PlainCell(item: Row, key: string): (r: JsValue)
    ensures key in item && !Nullish(item[key]) ==> r == item[key]
    ensures (key !in item || Nullish(item[key])) ==> r == Str("")
  {
    if key in item then OrEmpty(item[key]) else Str("")
  }

  /** Walking `p + q` is walking `p`, then `q` from where `p` ended. */
  lemma {:induction false} LookupAppend(v: JsValue, p: seq<string>, q: seq<string>)
    ensures Lookup(v, p + q) == Lookup(Lookup(v, p), q)
    decreases |p|
  {
    if p == [] {
      assert p + q == q;
    } else if Nullish(v) {
      if q != [] {
        assert (p + q)[0] == p[0];
      }
    } else {
      assert (p + q)[1..] == p[1..] + q;
      assert (p + q)[0] == p[0];
      LookupAppend(Get(v, p[0]), p[1..], q);
    }
  }

  /** Proof helper for the lookup lemmas: once a walk reaches null or
      undefined with a segment still to go, the rest of the walk yields
      `undefined`, whatever the segments. */
  lemma {:induction false} NullishStaysUndefined(v: JsValue, q: seq<string>)
    requires Nullish(v) && q != []
    ensures Lookup(v, q) == Undefined
  {
  }

  /** A dotted key whose walk meets null or undefined before its last
      segment gives the empty text. */
  lemma DottedCellEmptyOnNullishPrefix<N>(item: Row, column: Column<N>, n: nat)
    requires column.render.None? && '.' in column.key
    requires n < |JsText.Split(column.key, '.')|
    requires Nullish(Lookup(Obj(item), JsText.Split(column.key, '.')[..n]))
    ensures CellValue(item, column) == Text(Str(""))
  {
    var path := JsText.Split(column.key, '.');
    assert path == path[..n] + path[n..];
    LookupAppend(Obj(item), path[..n], path[n..]);
    NullishStaysUndefined(Lookup(Obj(item), path[..n]), path[n..]);
  }

  /** The test for a dot only chooses a faster route: a key without a dot
      walked as a one-segment path gives the plain-key answer. */
  lemma DottedAgreesWithPlain(item: Row, key: string)
    requires '.' !in key
    ensures OrEmpty(Lookup(Obj(item), JsText.Split(key, '.'))) == PlainCell(item, key)
  {
    JsText.SplitSingle(key, '.');
    assert JsText.Split(key, '.')[1..] == [];
  }

  /** `a.b` reaches field `b` of the object in field `a`. */
  lemma NestedField<N>(item: Row, a: string, b: string, column: Column<N>)
    requires '.' !in a && '.' !in b
    requires column.render.None? && column.key == a + "." + b
    requires a in item && item[a].Obj? && b in item[a].fields && !Nullish(item[a].fields[b])
    ensures CellValue(item, column) == Text(item[a].fields[b])
  {
    assert JsText.Join([a, b], '.') == a + "." + b by {
      assert JsText.Join([b], '.') == b;
    }
    JsText.SplitJoin([a, b], '.');
    assert column.key[|a|] == '.';
    var path := JsText.Split(column.key, '.');
    assert path == [a, b];
    assert path[1..] == [b] && path[1..][1..] == [];
    assert '.' in column.key;
    assert Lookup(item[a], [b]) == Lookup(item[a].fields[b], []);
    assert Lookup(Obj(item), path) == Lookup(item[a], [b]);
  }

  /** `getCellValue` as the component runs it: a renderer wins; a dotted key
      is walked segment by segment with an early exit on null or
      undefined; any other key is read directly. */
  method GetCellValue<N>(item: Row, column: Column<N>) returns (cell: Cell<N>)
    ensures cell == CellValue(item, column)
  {
    if column.render.Some? {
      return Rendered(column.render.value(item));
    }
    if '.' in column.key {
      var keys := JsText.Split(column.key, '.');
      var value := Obj(item);
      for i := 0 to |keys|
        invariant Lookup(Obj(item), keys) == Lookup(value, keys[i..])
      {
        if Nullish(value) {
          assert keys[i..] != [];
          return Text(Str(""));
        }
        assert keys[i..][1..] == keys[i + 1..];
        value := Get(value, keys[i]);
      }
      assert keys[|keys|..] == [];
      return Text(OrEmpty(value));
    }
    return Text(if column.key in item then OrEmpty(item[column.key]) else Str(""));
  }

  // ---------------------------------------------------------------------
  // Table layout

  /** The header cells: one per column, plus "Actions" when rows have
      actions. */
  function HeaderCells<N>(columns: seq<Column<N>>, hasActions: bool): (r: seq<string>)
    ensures |r| == |columns| + (if hasActions then 1 else 0)
    ensures forall i :: 0 <= i < |columns| ==> r[i] == columns[i].header
    ensures hasActions ==> r[|columns|] == "Actions"
  {
    seq(|columns|, i requires 0 <= i < |columns| => columns[i].header) + (if hasActions then ["Actions"] else [])
  }

  /** What the table body shows. */
  datatype Body = Skeleton(rows: seq<nat>) | EmptyState(colSpan: nat) | DataRows(count: nat)

  const SKELETON_ROWS: nat := 3

  /** The body: skeleton rows while loading, one spanning "nothing found"
      cell for no data, otherwise one row per item. */
  function TableBody<N>(columns: seq<Column<N>>, hasActions: bool, loading: bool, dataLength: nat): (r: Body)
    ensures loading ==>
              r.Skeleton? && |r.rows| == SKELETON_ROWS &&
              forall i :: 0 <= i < |r.rows| ==> r.rows[i] == |HeaderCells(columns, hasActions)|
    ensures !loading && dataLength == 0 ==> r == EmptyState(|HeaderCells(columns, hasActions)|)
    ensures !loading && dataLength > 0 ==> r == DataRows(dataLength)
  {
    var width := |columns| + (if hasActions then 1 else 0);
    if loading then Skeleton(seq(SKELETON_ROWS, _ => width))
    else if dataLength == 0 then EmptyState(width)
    else DataRows(dataLength)
  }
}
