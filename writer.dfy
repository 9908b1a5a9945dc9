/** The ascii body PlyFile.WriteTextInternal writes: for every element, Size rows; in every row
    one cell per property, taken from the data bound to the property's key at the running
    index `current`, each value followed by one space; each row ended by a line break. */
module TextBody {
  import opened Outcomes
  import opened PlyTypes
  import opened Decimal
  import opened StreamHelper
  import opened PlyProperty
  import opened PlyElement
  import opened Binding

  /** The text given to the writer so far, and the exception that stopped it, if any. */
  datatype Out = Out(text: string, failure: Option<PlyError>)

  /** The CLR full name of each kind. */
  function ClrName(k: ScalarKind): string
  {
    match k
    case SByte => "System.SByte"
    case Byte => "System.Byte"
    case Short => "System.Int16"
    case UShort => "System.UInt16"
    case Int => "System.Int32"
    case UInt => "System.UInt32"
    case Float => "System.Single"
    case Double => "System.Double"
  }

  /** What List<T>.ToString() gives: the type name, not the items. */
  function ListTypeName(k: ScalarKind): string
  {
    "System.Collections.Generic.List`1[" + ClrName(k) + "]"
  }

  /** Values written one WriteData at a time: each value's text, then a space. */
  function Spaced<V>(show: V -> string, vs: seq<V>): (r: string)
    decreases |vs|
  {
    if vs == [] then "" else show(vs[0]) + " " + Spaced(show, vs[1..])
  }

  lemma {:induction false} SpacedSnoc<V>(show: V -> string, vs: seq<V>, v: V)
    ensures Spaced(show, vs + [v]) == Spaced(show, vs) + show(v) + " "
    decreases |vs|
  {
    if vs == [] {
      assert [v][1..] == [];
    } else {
      assert (vs + [v])[1..] == vs[1..] + [v];
      SpacedSnoc(show, vs[1..], v);
    }
  }

  /** One cell: property p of element e at data index idx. The key must be bound
      (KeyNotFoundException); a list property needs a multivector cursor and writes its list's
      count then its items; a scalar property writes the item at idx, and when the cursor
      holds lists, the list's type name. */
  function CellText<V>(show: V -> string, table: map<string, nat>, cursors: seq<Buffer<V>>, e: Element, p: Property, idx: nat): (r: Result<string>)
    requires Bound(table, cursors)
  {
    var key := MakeKey(e.name, p.name);
    if key !in table then Err(KeyNotFound)
    else
      var b := cursors[table[key]];
      if p.IsList() then
        if !b.Nested? then Err(ListNeedsMultivector)
        else if idx < |b.rows| then Ok(IntToString(|b.rows[idx]|) + " " + Spaced(show, b.rows[idx]))
        else Err(IndexOutOfRange)
      else
        match b
        case Unset => Err(NullBuffer)
        case Flat(_, items) => if idx < |items| then Ok(show(items[idx]) + " ") else Err(IndexOutOfRange)
        case Nested(k, rows) => if idx < |rows| then Ok(ListTypeName(k) + " ") else Err(IndexOutOfRange)
  }

  /** The cells of row i from property j on; cell (i, j) reads index i * |properties| + j. */
  function EmitCells<V>(show: V -> string, table: map<string, nat>, cursors: seq<Buffer<V>>, e: Element, i: nat, j: nat, o: Out): Out
    requires Bound(table, cursors)
    decreases |e.properties| - j
  {
    if o.failure.Some? || j >= |e.properties| then o
    else
      match CellText(show, table, cursors, e, e.properties[j], i * |e.properties| + j)
      case Err(x) => Out(o.text, Some(x))
      case Ok(t) => EmitCells(show, table, cursors, e, i, j + 1, Out(o.text + t, None))
  }

  /** `writer.WriteLine("")` after each row. */
  function EndRow(o: Out): Out
  {
    if o.failure.Some? then o else Out(o.text + NewLine, None)
  }

  /** The rows of element e from row i on: max(Size, 0) rows in all. */
  function EmitRows<V>(show: V -> string, table: map<string, nat>, cursors: seq<Buffer<V>>, e: Element, i: nat, o: Out): Out
    requires Bound(table, cursors)
    decreases Rows(e) - i
  {
    if i >= Rows(e) then o
    else EmitRows(show, table, cursors, e, i + 1, EndRow(EmitCells(show, table, cursors, e, i, 0, o)))
  }

  /** Every element in order, whether it was read, requested or added. */
  function EmitElements<V>(show: V -> string, table: map<string, nat>, cursors: seq<Buffer<V>>, es: seq<Element>, o: Out): Out
    requires Bound(table, cursors)
    decreases |es|
  {
    if es == [] then o
    else EmitElements(show, table, cursors, es[1..], EmitRows(show, table, cursors, es[0], 0, o))
  }

  // ---------------------------------------------------------------------------------------
  // After an exception nothing more is written

  lemma {:induction false} EmitRowsSticky<V>(show: V -> string, table: map<string, nat>, cursors: seq<Buffer<V>>, e: Element, i: nat, o: Out)
    requires Bound(table, cursors) && o.failure.Some?
    ensures EmitRows(show, table, cursors, e, i, o) == o
    decreases Rows(e) - i
  {
    if i < Rows(e) {
      EmitRowsSticky(show, table, cursors, e, i + 1, o);
    }
  }

  lemma {:induction false} EmitElementsSticky<V>(show: V -> string, table: map<string, nat>, cursors: seq<Buffer<V>>, es: seq<Element>, o: Out)
    requires Bound(table, cursors) && o.failure.Some?
    ensures EmitElements(show, table, cursors, es, o) == o
    decreases |es|
  {
    if es != [] {
      EmitRowsSticky(show, table, cursors, es[0], 0, o);
      EmitElementsSticky(show, table, cursors, es[1..], o);
    }
  }

  /** One cell of a row: its text is appended to before, giving after, or its exception
      ends the row with nothing appended. */
  lemma EmitCellsStep<V>(show: V -> string, table: map<string, nat>, cursors: seq<Buffer<V>>, e: Element, i: nat, j: nat,
                         idx: nat, before: string, after: string, failure: Option<PlyError>)
    requires Bound(table, cursors) && j < |e.properties| && idx == i * |e.properties| + j
    requires match CellText(show, table, cursors, e, e.properties[j], idx)
      case Ok(t) => failure.None? && after == before + t
      case Err(x) => failure == Some(x) && after == before
    ensures failure.None? ==>
      EmitCells(show, table, cursors, e, i, j, Out(before, None)) == EmitCells(show, table, cursors, e, i, j + 1, Out(after, None))
    ensures failure.Some? ==> EmitCells(show, table, cursors, e, i, j, Out(before, None)) == Out(after, failure)
  {
  }

  /** The writer only appends: whatever happens, the text written before is kept. */
  lemma {:induction false} EmitCellsExtends<V>(show: V -> string, table: map<string, nat>, cursors: seq<Buffer<V>>, e: Element, i: nat, j: nat, o: Out)
    requires Bound(table, cursors)
    ensures var r := EmitCells(show, table, cursors, e, i, j, o);
      |o.text| <= |r.text| && r.text[..|o.text|] == o.text && (o.failure.Some? ==> r == o)
    decreases |e.properties| - j
  {
    if o.failure.None? && j < |e.properties| {
      match CellText(show, table, cursors, e, e.properties[j], i * |e.properties| + j)
      case Err(x) =>
      case Ok(t) =>
        var o' := Out(o.text + t, None);
        EmitCellsExtends(show, table, cursors, e, i, j + 1, o');
        var r := EmitCells(show, table, cursors, e, i, j + 1, o');
        assert r.text[..|o.text|] == r.text[..|o'.text|][..|o.text|];
    }
  }

  // ---------------------------------------------------------------------------------------
  // What the body holds

  /** Reference text of n rows of k values taken in order from data, from row i on. */
  function FlatRowsText<V>(show: V -> string, data: seq<V>, k: nat, i: nat, n: nat): string
    requires n * k <= |data|
    decreases n - i
  {
    if i >= n then ""
    else
      RowSliceFits(|data|, k, i, n);
      Spaced(show, data[i * k..i * k + k]) + NewLine + FlatRowsText(show, data, k, i + 1, n)
  }

  /** The values of rows i to n of a table of k columns stored row after row in data. */
  function RowsSlice<V>(data: seq<V>, k: nat, i: nat, n: nat): seq<V>
    requires i <= n && n * k <= |data|
  {
    MulMono(i, n, k);
    data[i * k..n * k]
  }

  lemma RowsSliceFromStart<V>(data: seq<V>, k: nat, n: nat)
    requires n * k <= |data|
    ensures RowsSlice(data, k, 0, n) == data[..n * k]
  {
  }

  lemma RowsSliceStep<V>(data: seq<V>, k: nat, i: nat, n: nat)
    requires i < n && n * k <= |data|
    ensures i * k + k <= |data|
    ensures RowsSlice(data, k, i, n) == data[i * k..i * k + k] + RowsSlice(data, k, i + 1, n)
  {
    MulMono(i + 1, n, k);
    MulSucc(i, k);
  }

  lemma RowSliceFits(len: nat, k: nat, i: nat, n: nat)
    requires n * k <= len && i < n
    ensures i * k + k <= len
  {
    assert i * k + k == (i + 1) * k;
    assert (i + 1) * k <= n * k;
  }

  /** The cells of a row of a flat element are its slice of the data, in order. */
  lemma {:induction false} FlatCellsText<V>(show: V -> string, table: map<string, nat>, cursors: seq<Buffer<V>>, e: Element, t: ScalarKind, c: nat, data: seq<V>, i: nat, j: nat, text: string)
    requires Bound(table, cursors) && FlatLayout(table, e, t, c) && c < |cursors| && cursors[c] == Flat(t, data)
    requires j <= |e.properties| && i * |e.properties| + |e.properties| <= |data|
    ensures EmitCells(show, table, cursors, e, i, j, Out(text, None))
         == Out(text + Spaced(show, data[i * |e.properties| + j..i * |e.properties| + |e.properties|]), None)
    decreases |e.properties| - j
  {
    var k := |e.properties|;
    var cells := data[i * k + j..i * k + k];
    if j < k {
      assert e.properties[j] in e.properties;
      var cell := show(data[i * k + j]) + " ";
      assert CellText(show, table, cursors, e, e.properties[j], i * k + j) == Ok(cell);
      FlatCellsText(show, table, cursors, e, t, c, data, i, j + 1, text + cell);
      assert cells[0] == data[i * k + j] && cells[1..] == data[i * k + j + 1..i * k + k];
    } else {
      assert cells == [];
    }
  }

  /** One row of a flat element: its slice of the data, then the line break. */
  lemma FlatRowStep<V>(show: V -> string, table: map<string, nat>, cursors: seq<Buffer<V>>, e: Element, t: ScalarKind, c: nat, data: seq<V>, i: nat, text: string)
    requires Bound(table, cursors) && FlatLayout(table, e, t, c) && c < |cursors| && cursors[c] == Flat(t, data)
    requires i < Rows(e) && i * |e.properties| + |e.properties| <= |data|
    ensures EmitRows(show, table, cursors, e, i, Out(text, None))
         == EmitRows(show, table, cursors, e, i + 1, Out(text + Spaced(show, data[i * |e.properties|..i * |e.properties| + |e.properties|]) + NewLine, None))
  {
    var k := |e.properties|;
    FlatCellsText(show, table, cursors, e, t, c, data, i, 0, text);
    assert data[i * k + 0..i * k + k] == data[i * k..i * k + k];
  }

  /** The body of an element laid out like AddPropertiesToElement's is its data cut into rows
      of |properties| values, as many rows as Size says. */
  lemma {:induction false} FlatRowsTextMatches<V>(show: V -> string, table: map<string, nat>, cursors: seq<Buffer<V>>, e: Element, t: ScalarKind, c: nat, data: seq<V>, i: nat, text: string)
    requires Bound(table, cursors) && FlatLayout(table, e, t, c) && c < |cursors| && cursors[c] == Flat(t, data)
    requires Rows(e) * |e.properties| <= |data|
    ensures EmitRows(show, table, cursors, e, i, Out(text, None))
         == Out(text + FlatRowsText(show, data, |e.properties|, i, Rows(e)), None)
    decreases Rows(e) - i
  {
    var k := |e.properties|;
    if i < Rows(e) {
      RowSliceFits(|data|, k, i, Rows(e));
      var cells := Spaced(show, data[i * k..i * k + k]);
      var row := cells + NewLine;
      FlatRowStep(show, table, cursors, e, t, c, data, i, text);
      AppendAssoc(text, cells, NewLine);
      FlatRowsTextMatches(show, table, cursors, e, t, c, data, i + 1, text + row);
      AppendAssoc(text, row, FlatRowsText(show, data, k, i + 1, Rows(e)));
    } else {
      AppendEmpty(text);
    }
  }

  /** Reference text of a list element: each row is its list's length, then its items. */
  function ListRowsText<V>(show: V -> string, rows: seq<seq<V>>, i: nat, n: nat): string
    requires n <= |rows|
    decreases n - i
  {
    if i >= n then ""
    else IntToString(|rows[i]|) + " " + Spaced(show, rows[i]) + NewLine + ListRowsText(show, rows, i + 1, n)
  }

  /** The body of an element laid out like AddListPropertyToElement's is one line per list:
      the list's count, then its items. */
  lemma {:induction false} ListRowsTextMatches<V>(show: V -> string, table: map<string, nat>, cursors: seq<Buffer<V>>, e: Element, c: nat, t: ScalarKind, rows: seq<seq<V>>, i: nat, text: string)
    requires Bound(table, cursors) && ListLayout(table, e, c) && c < |cursors| && cursors[c] == Nested(t, rows)
    requires Rows(e) <= |rows|
    ensures EmitRows(show, table, cursors, e, i, Out(text, None)) == Out(text + ListRowsText(show, rows, i, Rows(e)), None)
    decreases Rows(e) - i
  {
    if i < Rows(e) {
      var line := IntToString(|rows[i]|) + " " + Spaced(show, rows[i]) + NewLine;
      ListRowStep(show, table, cursors, e, c, t, rows, i, text);
      ListRowsTextMatches(show, table, cursors, e, c, t, rows, i + 1, text + line);
      AppendAssoc(text, line, ListRowsText(show, rows, i + 1, Rows(e)));
    } else {
      AppendEmpty(text);
    }
  }

  /** One row of a list element: the list's count, its items, then the line break. */
  lemma ListRowStep<V>(show: V -> string, table: map<string, nat>, cursors: seq<Buffer<V>>, e: Element, c: nat, t: ScalarKind, rows: seq<seq<V>>, i: nat, text: string)
    requires Bound(table, cursors) && ListLayout(table, e, c) && c < |cursors| && cursors[c] == Nested(t, rows)
    requires i < Rows(e) <= |rows|
    ensures EmitRows(show, table, cursors, e, i, Out(text, None))
         == EmitRows(show, table, cursors, e, i + 1, Out(text + (IntToString(|rows[i]|) + " " + Spaced(show, rows[i]) + NewLine), None))
  {
    var line := IntToString(|rows[i]|) + " " + Spaced(show, rows[i]);
    assert i * 1 + 0 == i;
    assert CellText(show, table, cursors, e, e.properties[0], i * 1 + 0) == Ok(line);
    assert EmitCells(show, table, cursors, e, i, 1, Out(text + line, None)) == Out(text + line, None);
    assert text + line + NewLine == text + (line + NewLine);
  }

  /** Writing an element whose first property has no binding throws KeyNotFoundException at
      the first row, before any cell of the element is written. */
  lemma UnboundPropertyThrows<V>(show: V -> string, table: map<string, nat>, cursors: seq<Buffer<V>>, e: Element, o: Out)
    requires Bound(table, cursors) && o.failure.None? && Rows(e) > 0
    requires e.properties != [] && MakeKey(e.name, e.properties[0].name) !in table
    ensures EmitRows(show, table, cursors, e, 0, o) == Out(o.text, Some(KeyNotFound))
  {
    EmitRowsSticky(show, table, cursors, e, 1, Out(o.text, Some(KeyNotFound)));
  }

  /** A list property bound to a cursor that is not a multivector (a flat list, or one whose
      vector was never set) throws NotSupportedException at the first row. */
  lemma ListNeedsMultivectorThrows<V>(show: V -> string, table: map<string, nat>, cursors: seq<Buffer<V>>, e: Element, o: Out)
    requires Bound(table, cursors) && o.failure.None? && Rows(e) > 0
    requires e.properties != [] && e.properties[0].IsList()
    requires MakeKey(e.name, e.properties[0].name) in table && !cursors[table[MakeKey(e.name, e.properties[0].name)]].Nested?
    ensures EmitRows(show, table, cursors, e, 0, o) == Out(o.text, Some(ListNeedsMultivector))
  {
    EmitRowsSticky(show, table, cursors, e, 1, Out(o.text, Some(ListNeedsMultivector)));
  }
}
