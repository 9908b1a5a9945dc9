/** The ascii body read back: what WriteTextInternal writes for an element is read by Read, with
    the text reader's ReadData and SkipData, into the same values, provided every value's text
    is a single token that Convert.ChangeType turns back into that value. */
module BodyRoundTrip {
  import opened Outcomes
  import opened PlyTypes
  import opened Decimal
  import opened StreamHelper
  import opened PlyProperty
  import opened PlyElement
  import opened Binding
  import opened Traversal
  import opened TextBody
  import PlyHeader

  /** The tokens of values written one WriteData at a time. */
  function Shown<V>(show: V -> string, vs: seq<V>): (ws: seq<string>)
    ensures |ws| == |vs| && forall j :: 0 <= j < |vs| ==> ws[j] == show(vs[j])
  {
    seq(|vs|, j requires 0 <= j < |vs| => show(vs[j]))
  }

  /** Every value's text is one non-empty token. */
  ghost predicate SingleTokens<V>(show: V -> string, vs: seq<V>)
  {
    forall j :: 0 <= j < |vs| ==> show(vs[j]) != [] && NoWhiteSpace(show(vs[j]))
  }

  /** Every value's text converts back to the value as kind t. */
  ghost predicate ConvertsBack<V>(show: V -> string, convert: (string, ScalarKind) -> Option<V>, t: ScalarKind, vs: seq<V>)
  {
    forall j :: 0 <= j < |vs| ==> convert(NormalizeNan(show(vs[j])), t) == Some(vs[j])
  }

  // ---------------------------------------------------------------------------------------
  // The tokens of the written body

  lemma ShownAppend<V>(show: V -> string, a: seq<V>, b: seq<V>)
    ensures Shown(show, a + b) == Shown(show, a) + Shown(show, b)
  {
  }

  /** Values written with their trailing spaces are, as tokens, the values' texts in order. */
  lemma {:induction false} SpacedWords<V>(show: V -> string, vs: seq<V>, x: string)
    requires SingleTokens(show, vs)
    ensures Words(Spaced(show, vs) + x) == Shown(show, vs) + Words(x)
    decreases |vs|
  {
    if vs == [] {
      assert Spaced(show, vs) == "";
      EmptyAppend(x);
    } else {
      SingleTokensSlice(show, vs, 1, |vs|);
      assert vs[1..|vs|] == vs[1..];
      SpacedWords(show, vs[1..], x);
      SpacedWordsStep(show, vs, x);
    }
  }

  lemma SpacedWordsStep<V>(show: V -> string, vs: seq<V>, x: string)
    requires vs != [] && show(vs[0]) != [] && NoWhiteSpace(show(vs[0]))
    requires Words(Spaced(show, vs[1..]) + x) == Shown(show, vs[1..]) + Words(x)
    ensures Words(Spaced(show, vs) + x) == Shown(show, vs) + Words(x)
  {
    var w := show(vs[0]);
    var tail := Spaced(show, vs[1..]) + x;
    assert Spaced(show, vs) + x == w + " " + tail;
    WordsOfSpaced(w, tail);
    ShownFirst(show, vs);
    AppendChain(Words(Spaced(show, vs) + x), [w], Words(tail), Shown(show, vs[1..]), Words(x), Shown(show, vs));
  }

  lemma ShownFirst<V>(show: V -> string, vs: seq<V>)
    requires vs != []
    ensures Shown(show, vs) == [show(vs[0])] + Shown(show, vs[1..])
  {
  }

  /** A line break separates tokens and is not one. */
  lemma NewLineWords(x: string)
    ensures Words(NewLine + x) == Words(x)
  {
    assert (NewLine + x)[0] == '\n' && (NewLine + x)[1..] == x;
  }

  /** One written row, its line break and what follows, as tokens. */
  lemma RowLineWords<V>(show: V -> string, row: seq<V>, later: string, x: string)
    requires SingleTokens(show, row)
    ensures Words(Spaced(show, row) + NewLine + later + x) == Shown(show, row) + Words(later + x)
  {
    assert Spaced(show, row) + NewLine + later + x == Spaced(show, row) + (NewLine + (later + x));
    SpacedWords(show, row, NewLine + (later + x));
    NewLineWords(later + x);
  }

  lemma SingleTokensSlice<V>(show: V -> string, data: seq<V>, a: nat, b: nat)
    requires a <= b <= |data| && SingleTokens(show, data)
    ensures SingleTokens(show, data[a..b])
  {
    forall j | 0 <= j < b - a ensures show(data[a..b][j]) != [] && NoWhiteSpace(show(data[a..b][j])) {
      assert data[a..b][j] == data[a + j];
    }
  }

  /** The body of a flat element, rows i to n, is the texts of data[i * k .. n * k] as tokens. */
  lemma {:induction false} FlatRowsTextWords<V>(show: V -> string, data: seq<V>, k: nat, i: nat, n: nat, x: string)
    requires n * k <= |data| && i <= n && SingleTokens(show, data)
    ensures Words(FlatRowsText(show, data, k, i, n) + x) == Shown(show, RowsSlice(data, k, i, n)) + Words(x)
    decreases n - i
  {
    if i == n {
      MulMono(i, n, k);
      assert RowsSlice(data, k, i, n) == [];
      assert FlatRowsText(show, data, k, i, n) == "";
      EmptyAppend(x);
    } else {
      FlatRowsTextWords(show, data, k, i + 1, n, x);
      FlatRowTextWords(show, data, k, i, n, x);
    }
  }

  /** One step of FlatRowsTextWords: row i in front of the rows after it. */
  lemma FlatRowTextWords<V>(show: V -> string, data: seq<V>, k: nat, i: nat, n: nat, x: string)
    requires n * k <= |data| && i < n && SingleTokens(show, data)
    requires Words(FlatRowsText(show, data, k, i + 1, n) + x) == Shown(show, RowsSlice(data, k, i + 1, n)) + Words(x)
    ensures Words(FlatRowsText(show, data, k, i, n) + x) == Shown(show, RowsSlice(data, k, i, n)) + Words(x)
  {
    var a := FlatRowStart(show, data, k, i, n);
    var row := data[a..a + k];
    var later := FlatRowsText(show, data, k, i + 1, n);
    SingleTokensSlice(show, data, a, a + k);
    RowLineWords(show, row, later, x);
    ShownAppend(show, row, RowsSlice(data, k, i + 1, n));
    AppendChain(Words(FlatRowsText(show, data, k, i, n) + x), Shown(show, row), Words(later + x),
                Shown(show, RowsSlice(data, k, i + 1, n)), Words(x), Shown(show, RowsSlice(data, k, i, n)));
  }

  /** Where row i starts in data, and how the text and the values of rows i to n begin with it. */
  lemma FlatRowStart<V>(show: V -> string, data: seq<V>, k: nat, i: nat, n: nat) returns (a: nat)
    requires n * k <= |data| && i < n
    ensures a + k <= |data|
    ensures RowsSlice(data, k, i, n) == data[a..a + k] + RowsSlice(data, k, i + 1, n)
    ensures FlatRowsText(show, data, k, i, n) == Spaced(show, data[a..a + k]) + NewLine + FlatRowsText(show, data, k, i + 1, n)
  {
    RowsSliceStep(data, k, i, n);
    a := i * k;
  }

  // ---------------------------------------------------------------------------------------
  // Reading the tokens back

  /** One bound scalar property read from text whose next token is the text of v: v is
      appended to its flat cursor and that one token is consumed. */
  lemma ScalarReadsToken<V>(show: V -> string, convert: (string, ScalarKind) -> Option<V>, toCount: V -> Option<nat>,
                            table: map<string, nat>, e: Element, p: Property, t: ScalarKind, c: nat,
                            items: seq<V>, v: V, ws: seq<string>, pass: Pass<string, V>)
    requires Bound(table, pass.cursors) && pass.failure.None?
    requires FlatLayout(table, e, t, c) && p in e.properties
    requires c < |pass.cursors| && pass.cursors[c] == Flat(t, items)
    requires convert(NormalizeNan(show(v)), t) == Some(v)
    requires Words(pass.input) == [show(v)] + ws
    ensures var r := ReadProperty(TextCodec(convert, toCount), table, e, p, pass);
      && r.failure.None? && r.cursors == pass.cursors[c := Flat(t, items + [v])] && Words(r.input) == ws
  {
    var s := pass.input;
    TextCodecConsumesOneWord(convert, t, s);
    var codec := TextCodec(convert, toCount);
    assert codec.readData(t, s) == TextReadData(convert, t, s);
    assert ReadScalarInto(codec, Flat(t, items), t, s) == Fill(Flat(t, items + [v]), TextSkipData(t, s), None);
  }

  /** Reading a row of a flat element from text whose next tokens are the texts of vs appends
      vs to the flat cursor, changes no other cursor and consumes exactly those tokens. */
  lemma {:induction false} FlatRowReadsTokens<V>(show: V -> string, convert: (string, ScalarKind) -> Option<V>, toCount: V -> Option<nat>,
                                                 table: map<string, nat>, e: Element, ps: seq<Property>, t: ScalarKind, c: nat,
                                                 items: seq<V>, vs: seq<V>, ws: seq<string>, pass: Pass<string, V>)
    requires Bound(table, pass.cursors) && pass.failure.None?
    requires FlatLayout(table, e, t, c) && forall p :: p in ps ==> p in e.properties
    requires c < |pass.cursors| && pass.cursors[c] == Flat(t, items)
    requires |vs| == |ps| && ConvertsBack(show, convert, t, vs)
    requires Words(pass.input) == Shown(show, vs) + ws
    ensures var r := ReadRow(TextCodec(convert, toCount), table, e, ps, pass);
      && r.failure.None? && r.cursors == pass.cursors[c := Flat(t, items + vs)] && Words(r.input) == ws
    decreases |ps|
  {
    if ps == [] {
      UpdateSame(pass.cursors, c, t, items, vs);
    } else {
      ShownCons(show, vs);
      ScalarReadsToken(show, convert, toCount, table, e, ps[0], t, c, items, vs[0], Shown(show, vs[1..]) + ws, pass);
      var next := ReadProperty(TextCodec(convert, toCount), table, e, ps[0], pass);
      ConvertsBackTail(show, convert, t, vs);
      PropertiesTail(ps, e.properties);
      FlatRowReadsTokens(show, convert, toCount, table, e, ps[1..], t, c, items + [vs[0]], vs[1..], ws, next);
      UpdateTwice(pass.cursors, c, t, items, [vs[0]], vs[1..]);
      ConsFirst(vs);
    }
  }

  lemma ShownCons<V>(show: V -> string, vs: seq<V>)
    requires vs != []
    ensures Shown(show, vs) == [show(vs[0])] + Shown(show, vs[1..])
  {
  }

  lemma ConvertsBackTail<V>(show: V -> string, convert: (string, ScalarKind) -> Option<V>, t: ScalarKind, vs: seq<V>)
    requires vs != [] && ConvertsBack(show, convert, t, vs)
    ensures convert(NormalizeNan(show(vs[0])), t) == Some(vs[0]) && ConvertsBack(show, convert, t, vs[1..])
  {
    forall j | 0 <= j < |vs| - 1 ensures convert(NormalizeNan(show(vs[1..][j])), t) == Some(vs[1..][j]) {
      assert vs[1..][j] == vs[j + 1];
    }
  }

  lemma PropertiesTail(ps: seq<Property>, all: seq<Property>)
    requires ps != [] && forall p :: p in ps ==> p in all
    ensures ps[0] in all && forall p :: p in ps[1..] ==> p in all
  {
    assert ps[0] in ps;
    assert forall p :: p in ps[1..] ==> p in ps;
  }

  lemma UpdateSame<V>(cs: seq<Buffer<V>>, c: nat, t: ScalarKind, items: seq<V>, vs: seq<V>)
    requires c < |cs| && cs[c] == Flat(t, items) && vs == []
    ensures cs[c := Flat(t, items + vs)] == cs
  {
    assert items + vs == items;
  }

  lemma UpdateTwice<V>(cs: seq<Buffer<V>>, c: nat, t: ScalarKind, items: seq<V>, vs: seq<V>, ws: seq<V>)
    requires c < |cs|
    ensures cs[c := Flat(t, items + vs)][c := Flat(t, items + vs + ws)] == cs[c := Flat(t, items + (vs + ws))]
  {
    assert items + vs + ws == items + (vs + ws);
  }

  /** Rows i to n of a flat element read from the texts of data[i * k .. n * k]. */
  lemma {:induction false} FlatRowsReadTokens<V>(show: V -> string, convert: (string, ScalarKind) -> Option<V>, toCount: V -> Option<nat>,
                                                 table: map<string, nat>, e: Element, t: ScalarKind, c: nat, items: seq<V>,
                                                 data: seq<V>, i: nat, n: nat, ws: seq<string>, pass: Pass<string, V>)
    requires Bound(table, pass.cursors) && pass.failure.None?
    requires FlatLayout(table, e, t, c) && c < |pass.cursors| && pass.cursors[c] == Flat(t, items)
    requires n * |e.properties| <= |data| && i <= n && ConvertsBack(show, convert, t, data)
    requires Words(pass.input) == Shown(show, RowsSlice(data, |e.properties|, i, n)) + ws
    ensures var r := ReadRows(TextCodec(convert, toCount), table, e, n - i, pass);
      && r.failure.None? && Words(r.input) == ws
      && r.cursors == pass.cursors[c := Flat(t, items + RowsSlice(data, |e.properties|, i, n))]
    decreases n - i
  {
    var k := |e.properties|;
    if i == n {
      MulMono(i, n, k);
      assert RowsSlice(data, k, i, n) == [];
      UpdateSame(pass.cursors, c, t, items, RowsSlice(data, k, i, n));
    } else {
      var row, later := FlatRowReadStep(show, convert, toCount, table, e, t, c, items, data, i, n, ws, pass);
      var next := ReadRow(TextCodec(convert, toCount), table, e, e.properties, pass);
      FlatRowsReadTokens(show, convert, toCount, table, e, t, c, items + row, data, i + 1, n, ws, next);
      UpdateTwice(pass.cursors, c, t, items, row, later);
    }
  }

  /** One step of FlatRowsReadTokens: row i is read from the first tokens. */
  lemma FlatRowReadStep<V>(show: V -> string, convert: (string, ScalarKind) -> Option<V>, toCount: V -> Option<nat>,
                           table: map<string, nat>, e: Element, t: ScalarKind, c: nat, items: seq<V>,
                           data: seq<V>, i: nat, n: nat, ws: seq<string>, pass: Pass<string, V>)
    returns (row: seq<V>, later: seq<V>)
    requires Bound(table, pass.cursors) && pass.failure.None?
    requires FlatLayout(table, e, t, c) && c < |pass.cursors| && pass.cursors[c] == Flat(t, items)
    requires n * |e.properties| <= |data| && i < n && ConvertsBack(show, convert, t, data)
    requires Words(pass.input) == Shown(show, RowsSlice(data, |e.properties|, i, n)) + ws
    ensures RowsSlice(data, |e.properties|, i, n) == row + later && later == RowsSlice(data, |e.properties|, i + 1, n)
    ensures var next := ReadRow(TextCodec(convert, toCount), table, e, e.properties, pass);
      && next.failure.None? && next.cursors == pass.cursors[c := Flat(t, items + row)]
      && Words(next.input) == Shown(show, later) + ws
  {
    var k := |e.properties|;
    var a := FlatRowStart(show, data, k, i, n);
    row := data[a..a + k];
    later := RowsSlice(data, k, i + 1, n);
    ShownAppend(show, row, later);
    ConvertsBackSlice(show, convert, t, data, a, a + k);
    FlatRowReadsTokens(show, convert, toCount, table, e, e.properties, t, c, items, row, Shown(show, later) + ws, pass);
  }

  lemma SliceSplit<V>(data: seq<V>, a: nat, k: nat, b: nat)
    requires a + k <= b <= |data|
    ensures data[a..b] == data[a..a + k] + data[a + k..b]
  {
  }

  lemma ConvertsBackSlice<V>(show: V -> string, convert: (string, ScalarKind) -> Option<V>, t: ScalarKind, data: seq<V>, a: nat, b: nat)
    requires a <= b <= |data| && ConvertsBack(show, convert, t, data)
    ensures ConvertsBack(show, convert, t, data[a..b])
  {
    forall j | 0 <= j < b - a ensures convert(NormalizeNan(show(data[a..b][j])), t) == Some(data[a..b][j]) {
      assert data[a..b][j] == data[a + j];
    }
  }

  /** The round trip of a flat element: the body WriteTextInternal writes for an element whose
      properties are all bound to one flat cursor over data (AddPropertiesToElement's layout),
      read back into an element requested the same way (RequestPropertyFromElement's layout),
      appends data[..Rows * |properties|] to the reader's cursor, changes no other cursor and
      leaves exactly the text after the body unread. */
  lemma FlatBodyRoundTrip<V>(show: V -> string, convert: (string, ScalarKind) -> Option<V>, toCount: V -> Option<nat>,
                             tableW: map<string, nat>, cursorsW: seq<Buffer<V>>, cw: nat,
                             requested: seq<string>, tableR: map<string, nat>, cursorsR: seq<Buffer<V>>, cr: nat,
                             e: Element, t: ScalarKind, data: seq<V>, items: seq<V>, rest: string)
    requires Bound(tableW, cursorsW) && FlatLayout(tableW, e, t, cw) && cw < |cursorsW| && cursorsW[cw] == Flat(t, data)
    requires Rows(e) * |e.properties| <= |data|
    requires Bound(tableR, cursorsR) && FlatLayout(tableR, e, t, cr) && cr < |cursorsR| && cursorsR[cr] == Flat(t, items)
    requires e.name in requested
    requires SingleTokens(show, data) && ConvertsBack(show, convert, t, data)
    ensures var body := EmitRows(show, tableW, cursorsW, e, 0, Out("", None));
      var r := ReadElement(TextCodec(convert, toCount), requested, tableR, e, Pass(cursorsR, body.text + rest, None));
      && body.failure.None?
      && r.failure.None? && r.cursors == cursorsR[cr := Flat(t, items + data[..Rows(e) * |e.properties|])]
      && Words(r.input) == Words(rest)
  {
    var k := |e.properties|;
    var n := Rows(e);
    var text := FlatRowsText(show, data, k, 0, n);
    FlatRowsTextMatches(show, tableW, cursorsW, e, t, cw, data, 0, "");
    EmptyAppend(text);
    FlatRowsTextWords(show, data, k, 0, n, rest);
    RowsSliceFromStart(data, k, n);
    FlatRowsReadTokens(show, convert, toCount, tableR, e, t, cr, items, data, 0, n, Words(rest), Pass(cursorsR, text + rest, None));
  }

  // ---------------------------------------------------------------------------------------
  // List elements

  /** The tokens of the body of a list element, rows i to n: each list's count, then its items. */
  function ListTokens<V>(show: V -> string, rows: seq<seq<V>>, i: nat, n: nat): seq<string>
    requires n <= |rows|
    decreases n - i
  {
    if i >= n then [] else [IntToString(|rows[i]|)] + Shown(show, rows[i]) + ListTokens(show, rows, i + 1, n)
  }

  /** Every list's values are single tokens. */
  ghost predicate RowsSingleTokens<V>(show: V -> string, rows: seq<seq<V>>)
  {
    forall j :: 0 <= j < |rows| ==> SingleTokens(show, rows[j])
  }

  /** Every list's count text converts, as the count kind, to a value that Convert.ToUInt32
      turns back into the count, and every item's text converts back to the item. */
  ghost predicate RowsConvertBack<V>(show: V -> string, convert: (string, ScalarKind) -> Option<V>, toCount: V -> Option<nat>,
                                     countType: ScalarKind, t: ScalarKind, rows: seq<seq<V>>)
  {
    forall j :: 0 <= j < |rows| ==>
      && convert(NormalizeNan(IntToString(|rows[j]|)), countType).Some?
      && toCount(convert(NormalizeNan(IntToString(|rows[j]|)), countType).value) == Some(|rows[j]|)
      && ConvertsBack(show, convert, t, rows[j])
  }

  /** The body of a list element, rows i to n, as tokens. */
  /** The tokens of list rows i to n written in front of x. */
  ghost predicate ListTextTokens<V>(show: V -> string, rows: seq<seq<V>>, i: nat, n: nat, x: string)
    requires n <= |rows|
  {
    Words(ListRowsText(show, rows, i, n) + x) == ListTokens(show, rows, i, n) + Words(x)
  }

  lemma {:induction false} ListRowsTextWords<V>(show: V -> string, rows: seq<seq<V>>, i: nat, n: nat, x: string)
    requires n <= |rows| && RowsSingleTokens(show, rows)
    ensures ListTextTokens(show, rows, i, n, x)
    decreases n - i
  {
    if i >= n {
      ListRowsTextNone(show, rows, i, n, x);
    } else {
      ListRowsTextWords(show, rows, i + 1, n, x);
      ListRowTextWords(show, rows, i, n, x);
    }
  }

  /** No lists: the tokens of x alone. */
  lemma ListRowsTextNone<V>(show: V -> string, rows: seq<seq<V>>, i: nat, n: nat, x: string)
    requires n <= |rows| && i >= n
    ensures ListTextTokens(show, rows, i, n, x)
  {
    assert ListRowsText(show, rows, i, n) == "" && ListTokens(show, rows, i, n) == [];
    EmptyAppend(x);
    EmptyAppend(Words(x));
  }

  /** One step of ListRowsTextWords: list i in front of the lists after it. */
  lemma ListRowTextWords<V>(show: V -> string, rows: seq<seq<V>>, i: nat, n: nat, x: string)
    requires i < n <= |rows| && RowsSingleTokens(show, rows)
    requires ListTextTokens(show, rows, i + 1, n, x)
    ensures ListTextTokens(show, rows, i, n, x)
  {
    var count := IntToString(|rows[i]|);
    var later := ListRowsText(show, rows, i + 1, n) + x;
    ListRowsTextUnfold(show, rows, i, n, x);
    PlyHeader.IntToStringIsToken(|rows[i]|);
    CountedLineWords(show, count, rows[i], later);
    assert ListTokens(show, rows, i, n) == [count] + Shown(show, rows[i]) + ListTokens(show, rows, i + 1, n);
    AppendChain(Words(ListRowsText(show, rows, i, n) + x), [count] + Shown(show, rows[i]), Words(later),
                ListTokens(show, rows, i + 1, n), Words(x), ListTokens(show, rows, i, n));
  }

  lemma ListRowsTextUnfold<V>(show: V -> string, rows: seq<seq<V>>, i: nat, n: nat, x: string)
    requires i < n <= |rows|
    ensures ListRowsText(show, rows, i, n) + x
         == IntToString(|rows[i]|) + " " + (Spaced(show, rows[i]) + (NewLine + (ListRowsText(show, rows, i + 1, n) + x)))
  {
  }

  /** A written list line, as tokens: the count, then the items, then what follows the line. */
  lemma CountedLineWords<V>(show: V -> string, count: string, vs: seq<V>, later: string)
    requires count != [] && NoWhiteSpace(count) && SingleTokens(show, vs)
    ensures Words(count + " " + (Spaced(show, vs) + (NewLine + later))) == [count] + Shown(show, vs) + Words(later)
  {
    WordsOfSpaced(count, Spaced(show, vs) + (NewLine + later));
    SpacedWords(show, vs, NewLine + later);
    NewLineWords(later);
    AppendAssoc([count], Shown(show, vs), Words(later));
  }

  /** n reads of kind t from text whose next tokens are the texts of vs give vs and consume
      exactly those tokens. */
  lemma {:induction false} ValuesReadTokens<V>(show: V -> string, convert: (string, ScalarKind) -> Option<V>, toCount: V -> Option<nat>,
                                               t: ScalarKind, vs: seq<V>, ws: seq<string>, s: string)
    requires ConvertsBack(show, convert, t, vs) && Words(s) == Shown(show, vs) + ws
    ensures var r := ReadValues(TextCodec(convert, toCount), t, |vs|, s);
      r.0 == vs && r.2.None? && Words(r.1) == ws
    decreases |vs|
  {
    if vs != [] {
      var codec := TextCodec(convert, toCount);
      ShownCons(show, vs);
      ConvertsBackTail(show, convert, t, vs);
      TextCodecConsumesOneWord(convert, t, s);
      assert codec.readData(t, s) == TextReadData(convert, t, s);
      var s1 := TextSkipData(t, s);
      ValuesReadTokens(show, convert, toCount, t, vs[1..], ws, s1);
      ConsFirst(vs);
    }
  }

  /** One row of a list element read from its tokens: the count, then that many items,
      which become one new list of the multivector cursor. */
  lemma ListRowReadsTokens<V>(show: V -> string, convert: (string, ScalarKind) -> Option<V>, toCount: V -> Option<nat>,
                              table: map<string, nat>, e: Element, c: nat, rs: seq<seq<V>>, row: seq<V>,
                              ws: seq<string>, pass: Pass<string, V>)
    requires Bound(table, pass.cursors) && pass.failure.None? && ListLayout(table, e, c)
    requires c < |pass.cursors| && pass.cursors[c] == Nested(e.properties[0].propertyType, rs)
    requires RowsConvertBack(show, convert, toCount, e.properties[0].listType.value, e.properties[0].propertyType, [row])
    requires Words(pass.input) == [IntToString(|row|)] + Shown(show, row) + ws
    ensures var r := ReadRow(TextCodec(convert, toCount), table, e, e.properties, pass);
      && r.failure.None? && r.cursors == pass.cursors[c := Nested(e.properties[0].propertyType, rs + [row])]
      && Words(r.input) == ws
  {
    var codec := TextCodec(convert, toCount);
    var p := e.properties[0];
    var s := pass.input;
    assert [row][0] == row;
    TextCodecConsumesOneWord(convert, p.listType.value, s);
    assert codec.readData(p.listType.value, s) == TextReadData(convert, p.listType.value, s);
    var s1 := TextSkipData(p.listType.value, s);
    assert Words(s1) == Shown(show, row) + ws;
    ValuesReadTokens(show, convert, toCount, p.propertyType, row, ws, s1);
    var one := ReadProperty(codec, table, e, p, pass);
    assert one.cursors == pass.cursors[c := Nested(p.propertyType, rs + [row])];
    assert e.properties[1..] == [];
  }

  /** The unread input holds the tokens of list rows i to n, then ws. */
  ghost predicate ListInput<V>(show: V -> string, rows: seq<seq<V>>, i: nat, n: nat, ws: seq<string>, input: string)
    requires n <= |rows|
  {
    Words(input) == ListTokens(show, rows, i, n) + ws
  }

  /** Rows i to n read with the text reader's delegates leave no exception, append lists i to
      n to cursor c, which held rs, and leave the tokens ws unread. */
  ghost predicate ListRowsReadBack<V>(convert: (string, ScalarKind) -> Option<V>, toCount: V -> Option<nat>,
                                      table: map<string, nat>, e: Element, c: nat, rs: seq<seq<V>>,
                                      rows: seq<seq<V>>, i: nat, n: nat, ws: seq<string>, pass: Pass<string, V>)
    requires Bound(table, pass.cursors) && c < |pass.cursors| && i <= n <= |rows| && |e.properties| > 0
  {
    var r := ReadRows(TextCodec(convert, toCount), table, e, n - i, pass);
    && r.failure.None? && r.cursors == pass.cursors[c := Nested(e.properties[0].propertyType, rs + rows[i..n])]
    && Words(r.input) == ws
  }

  /** Rows i to n of a list element read from their tokens. */
  lemma {:induction false} ListRowsReadTokens<V>(show: V -> string, convert: (string, ScalarKind) -> Option<V>, toCount: V -> Option<nat>,
                                                 table: map<string, nat>, e: Element, c: nat, rs: seq<seq<V>>,
                                                 rows: seq<seq<V>>, i: nat, n: nat, ws: seq<string>, pass: Pass<string, V>)
    requires Bound(table, pass.cursors) && pass.failure.None? && ListLayout(table, e, c)
    requires c < |pass.cursors| && pass.cursors[c] == Nested(e.properties[0].propertyType, rs)
    requires i <= n <= |rows|
    requires RowsConvertBack(show, convert, toCount, e.properties[0].listType.value, e.properties[0].propertyType, rows)
    requires ListInput(show, rows, i, n, ws, pass.input)
    ensures ListRowsReadBack(convert, toCount, table, e, c, rs, rows, i, n, ws, pass)
    decreases n - i
  {
    if i == n {
      ListRowsReadNone(show, convert, toCount, table, e, c, rs, rows, i, n, ws, pass);
    } else {
      var next := ListRowReadStep(show, convert, toCount, table, e, c, rs, rows, i, n, ws, pass);
      ListRowsReadTokens(show, convert, toCount, table, e, c, rs + [rows[i]], rows, i + 1, n, ws, next);
    }
  }

  /** No rows left to read: nothing is read and the cursor keeps its lists. */
  lemma ListRowsReadNone<V>(show: V -> string, convert: (string, ScalarKind) -> Option<V>, toCount: V -> Option<nat>,
                            table: map<string, nat>, e: Element, c: nat, rs: seq<seq<V>>,
                            rows: seq<seq<V>>, i: nat, n: nat, ws: seq<string>, pass: Pass<string, V>)
    requires Bound(table, pass.cursors) && pass.failure.None? && ListLayout(table, e, c)
    requires c < |pass.cursors| && pass.cursors[c] == Nested(e.properties[0].propertyType, rs)
    requires i == n <= |rows|
    requires ListInput(show, rows, i, n, ws, pass.input)
    ensures ListRowsReadBack(convert, toCount, table, e, c, rs, rows, i, n, ws, pass)
  {
    NestedUpdateSame(pass.cursors, c, e.properties[0].propertyType, rs, rows[i..n]);
    assert ListTokens(show, rows, i, n) == [];
    EmptyAppend(ws);
  }

  /** One step of ListRowsReadTokens: list i read in front of the lists after it. */
  lemma ListRowReadStep<V>(show: V -> string, convert: (string, ScalarKind) -> Option<V>, toCount: V -> Option<nat>,
                           table: map<string, nat>, e: Element, c: nat, rs: seq<seq<V>>,
                           rows: seq<seq<V>>, i: nat, n: nat, ws: seq<string>, pass: Pass<string, V>)
      returns (next: Pass<string, V>)
    requires Bound(table, pass.cursors) && pass.failure.None? && ListLayout(table, e, c)
    requires c < |pass.cursors| && pass.cursors[c] == Nested(e.properties[0].propertyType, rs)
    requires i < n <= |rows|
    requires RowsConvertBack(show, convert, toCount, e.properties[0].listType.value, e.properties[0].propertyType, rows)
    requires ListInput(show, rows, i, n, ws, pass.input)
    ensures Bound(table, next.cursors) && next.failure.None? && c < |next.cursors|
    ensures next.cursors[c] == Nested(e.properties[0].propertyType, rs + [rows[i]])
    ensures ListInput(show, rows, i + 1, n, ws, next.input)
    ensures ListRowsReadBack(convert, toCount, table, e, c, rs + [rows[i]], rows, i + 1, n, ws, next)
        ==> ListRowsReadBack(convert, toCount, table, e, c, rs, rows, i, n, ws, pass)
  {
    ListTokensCons(show, rows, i, n, ws);
    RowsConvertBackOne(show, convert, toCount, e.properties[0].listType.value, e.properties[0].propertyType, rows, i);
    ListRowReadsTokens(show, convert, toCount, table, e, c, rs, rows[i], ListTokens(show, rows, i + 1, n) + ws, pass);
    next := ReadRow(TextCodec(convert, toCount), table, e, e.properties, pass);
    ReadRowsStep(TextCodec(convert, toCount), table, e, n - i, pass);
    NestedUpdateTwice(pass.cursors, c, e.properties[0].propertyType, rs, rows, i, n);
  }

  lemma ListTokensCons<V>(show: V -> string, rows: seq<seq<V>>, i: nat, n: nat, ws: seq<string>)
    requires i < n <= |rows|
    ensures ListTokens(show, rows, i, n) + ws == [IntToString(|rows[i]|)] + Shown(show, rows[i]) + (ListTokens(show, rows, i + 1, n) + ws)
  {
  }

  lemma RowsConvertBackOne<V>(show: V -> string, convert: (string, ScalarKind) -> Option<V>, toCount: V -> Option<nat>,
                              countType: ScalarKind, t: ScalarKind, rows: seq<seq<V>>, i: nat)
    requires i < |rows| && RowsConvertBack(show, convert, toCount, countType, t, rows)
    ensures RowsConvertBack(show, convert, toCount, countType, t, [rows[i]])
  {
    assert [rows[i]][0] == rows[i];
  }

  lemma NestedUpdateSame<V>(cs: seq<Buffer<V>>, c: nat, t: ScalarKind, rs: seq<seq<V>>, more: seq<seq<V>>)
    requires c < |cs| && cs[c] == Nested(t, rs) && more == []
    ensures cs[c := Nested(t, rs + more)] == cs
  {
    assert rs + more == rs;
  }

  lemma NestedUpdateTwice<V>(cs: seq<Buffer<V>>, c: nat, t: ScalarKind, rs: seq<seq<V>>, rows: seq<seq<V>>, i: nat, n: nat)
    requires c < |cs| && i < n <= |rows|
    ensures cs[c := Nested(t, rs + [rows[i]])][c := Nested(t, rs + [rows[i]] + rows[i + 1..n])]
         == cs[c := Nested(t, rs + rows[i..n])]
  {
    assert rs + [rows[i]] + rows[i + 1..n] == rs + rows[i..n];
  }

  /** The round trip of a list element: the body WriteTextInternal writes for an element whose
      one list property is bound to a multivector cursor over rows (AddListPropertyToElement's
      layout), read back into an element requested with RequestListPropertyFromElement, adds
      the first Rows lists of rows to the reader's cursor, changes no other cursor and leaves
      exactly the text after the body unread. */
  lemma ListBodyRoundTrip<V>(show: V -> string, convert: (string, ScalarKind) -> Option<V>, toCount: V -> Option<nat>,
                             tableW: map<string, nat>, cursorsW: seq<Buffer<V>>, cw: nat, tw: ScalarKind,
                             requested: seq<string>, tableR: map<string, nat>, cursorsR: seq<Buffer<V>>, cr: nat,
                             e: Element, rows: seq<seq<V>>, rs: seq<seq<V>>, rest: string)
    requires Bound(tableW, cursorsW) && ListLayout(tableW, e, cw) && cw < |cursorsW| && cursorsW[cw] == Nested(tw, rows)
    requires Rows(e) <= |rows|
    requires Bound(tableR, cursorsR) && ListLayout(tableR, e, cr) && cr < |cursorsR|
    requires cursorsR[cr] == Nested(e.properties[0].propertyType, rs) && e.name in requested
    requires RowsSingleTokens(show, rows)
    requires RowsConvertBack(show, convert, toCount, e.properties[0].listType.value, e.properties[0].propertyType, rows)
    ensures var body := EmitRows(show, tableW, cursorsW, e, 0, Out("", None));
      var r := ReadElement(TextCodec(convert, toCount), requested, tableR, e, Pass(cursorsR, body.text + rest, None));
      && body.failure.None?
      && r.failure.None? && r.cursors == cursorsR[cr := Nested(e.properties[0].propertyType, rs + rows[..Rows(e)])]
      && Words(r.input) == Words(rest)
  {
    var n := Rows(e);
    var text := ListRowsText(show, rows, 0, n);
    ListRowsTextMatches(show, tableW, cursorsW, e, cw, tw, rows, 0, "");
    assert "" + text == text;
    ListRowsTextWords(show, rows, 0, n, rest);
    ListRowsReadTokens(show, convert, toCount, tableR, e, cr, rs, rows, 0, n, Words(rest), Pass(cursorsR, text + rest, None));
    assert rows[0..n] == rows[..n];
  }
}
