/** The body reader of PlyFile.cs (the private Read over a readData and a skipData delegate),
    as functions of the unread input. The stream behind the delegates is the state S; readData
    answers None where Convert.ChangeType throws, and toCount is Convert.ToUInt32 (None where it
    throws). Each fold carries the first exception, after which nothing more is read. */
module Traversal {
  import opened Outcomes
  import opened PlyTypes
  import opened StreamHelper
  import opened PlyProperty
  import opened PlyElement
  import opened Binding

  /** The two delegates Read is given, and the list-count conversion. */
  datatype Codec<!S, !V> = Codec(readData: (ScalarKind, S) -> (Option<V>, S), skipData: (ScalarKind, S) -> S, toCount: V -> Option<nat>)

  /** The text reader's delegates: tokens converted by convert (int.Parse / float.Parse and
      Convert.ChangeType), each skip consuming one token. */
  function TextCodec<V>(convert: (string, ScalarKind) -> Option<V>, toCount: V -> Option<nat>): Codec<string, V>
  {
    Codec((k, s) => TextReadData(convert, k, s), (k, s) => TextSkipData(k, s), toCount)
  }

  /** The binary reader's delegates: little-endian values of the kind's width decoded by decode. */
  function BinaryCodec<V>(decode: (seq<byte>, ScalarKind) -> V, toCount: V -> Option<nat>): Codec<seq<byte>, V>
  {
    Codec((k, s) => BinaryReadData(decode, k, s), (k, s) => BinarySkipData(k, s), toCount)
  }

  /** The cursors, the unread input and the exception that stopped the read, if any. */
  datatype Pass<S, V> = Pass(cursors: seq<Buffer<V>>, input: S, failure: Option<PlyError>)

  /** One cursor after reading into it, with the unread input and the exception if any. */
  datatype Fill<S, V> = Fill(buffer: Buffer<V>, input: S, failure: Option<PlyError>)

  /** IList.Add of one value of kind k: a null vector throws NullReferenceException, a vector of
      another element type (or of lists) throws ArgumentException. */
  function AppendValue<V>(b: Buffer<V>, k: ScalarKind, v: V): (r: Result<Buffer<V>>)
    ensures r.Ok? <==> b.Flat? && b.kind == k
    ensures r.Ok? ==> r.value == Flat(k, b.items + [v])
    ensures b.Unset? ==> r == Err(NullBuffer)
    ensures b.Nested? || (b.Flat? && b.kind != k) ==> r == Err(WrongBufferType)
  {
    match b
    case Unset => Err(NullBuffer)
    case Flat(kind, items) => if kind == k then Ok(Flat(kind, items + [v])) else Err(WrongBufferType)
    case Nested(_, _) => Err(WrongBufferType)
  }

  /** `cursor.vector.Add(readData(k))`: the value is read before the Add can throw. */
  function ReadScalarInto<S, V>(codec: Codec<S, V>, b: Buffer<V>, k: ScalarKind, s: S): Fill<S, V>
  {
    var (v, s1) := codec.readData(k, s);
    if v.None? then Fill(b, s1, Some(MalformedData))
    else
      match AppendValue(b, k, v.value)
      case Err(e) => Fill(b, s1, Some(e))
      case Ok(b') => Fill(b', s1, None)
  }

  /** n values of kind k read one after another: the values read before the first failure, the
      unread input and that failure. */
  function ReadValues<S, V>(codec: Codec<S, V>, k: ScalarKind, n: nat, s: S): (r: (seq<V>, S, Option<PlyError>))
    ensures |r.0| <= n
    ensures r.2.None? ==> |r.0| == n
    decreases n
  {
    if n == 0 then ([], s, None)
    else
      var (v, s1) := codec.readData(k, s);
      if v.None? then ([], s1, Some(MalformedData))
      else
        var (vs, s2, f) := ReadValues(codec, k, n - 1, s1);
        ([v.value] + vs, s2, f)
  }

  /** `sourceList.Add(readData(k))` n times into a cursor that does not hold lists, stopped by
      the first exception. */
  function AddItems<S, V>(codec: Codec<S, V>, b: Buffer<V>, k: ScalarKind, n: nat, s: S): Fill<S, V>
    decreases n
  {
    if n == 0 then Fill(b, s, None)
    else
      var f := ReadScalarInto(codec, b, k, s);
      if f.failure.Some? then f else AddItems(codec, f.buffer, k, n - 1, f.input)
  }

  /** The list branch of Read: the count is read and converted first; a multivector cursor gets
      a new row (a List of the property's type, which the Add rejects when the cursor holds
      lists of another type) that receives the items; any other cursor receives the items
      directly. */
  function ReadListInto<S, V>(codec: Codec<S, V>, b: Buffer<V>, p: Property, s: S): Fill<S, V>
    requires p.IsList()
  {
    var (cv, s1) := codec.readData(p.listType.value, s);
    if cv.None? then Fill(b, s1, Some(MalformedData))
    else
      match codec.toCount(cv.value)
      case None => Fill(b, s1, Some(CountOverflow))
      case Some(n) =>
        if b.Nested? then
          if b.kind != p.propertyType then Fill(b, s1, Some(WrongBufferType))
          else
            var (vs, s2, f) := ReadValues(codec, p.propertyType, n, s1);
            Fill(Nested(b.kind, b.rows + [vs]), s2, f)
        else AddItems(codec, b, p.propertyType, n, s1)
  }

  /** Items added one by one to a flat cursor of their kind are the values read in a row. */
  lemma {:induction false} AddItemsToFlat<S, V>(codec: Codec<S, V>, k: ScalarKind, items: seq<V>, n: nat, s: S)
    ensures var (vs, s2, f) := ReadValues(codec, k, n, s);
      AddItems(codec, Flat(k, items), k, n, s) == Fill(Flat(k, items + vs), s2, f)
    decreases n
  {
    if n == 0 {
      AppendEmpty(items);
    } else {
      var (v, s1) := codec.readData(k, s);
      if v.None? {
        AppendEmpty(items);
      } else {
        AddItemsToFlat(codec, k, items + [v.value], n - 1, s1);
        var vs := ReadValues(codec, k, n - 1, s1).0;
        AppendOne(items, v.value, vs);
      }
    }
  }

  /** Any other cursor throws at the first item: a null vector, a vector of another type, or
      one holding lists; an empty list adds nothing and so does not throw. */
  lemma AddItemsOtherThrows<S, V>(codec: Codec<S, V>, b: Buffer<V>, k: ScalarKind, n: nat, s: S)
    requires !(b.Flat? && b.kind == k)
    ensures var r := AddItems(codec, b, k, n, s);
      r.buffer == b && (r.failure.None? <==> n == 0)
      && (n > 0 ==> r.failure == Some(if codec.readData(k, s).0.None? then MalformedData
                                      else if b.Unset? then NullBuffer else WrongBufferType))
  {
  }

  /** One property of one row: a bound property is read into its cursor, an unbound one is
      skipped with a single skipData of its item type, even when it is a list. */
  function ReadProperty<S, V>(codec: Codec<S, V>, table: map<string, nat>, e: Element, p: Property, pass: Pass<S, V>): (r: Pass<S, V>)
    requires Bound(table, pass.cursors)
    ensures |r.cursors| == |pass.cursors|
  {
    if pass.failure.Some? then pass
    else
      var key := MakeKey(e.name, p.name);
      if key !in table then pass.(input := codec.skipData(p.propertyType, pass.input))
      else
        var c := table[key];
        var f := if p.IsList() then ReadListInto(codec, pass.cursors[c], p, pass.input)
                 else ReadScalarInto(codec, pass.cursors[c], p.propertyType, pass.input);
        Pass(pass.cursors[c := f.buffer], f.input, f.failure)
  }

  /** The properties of one row, in header order. */
  function ReadRow<S, V>(codec: Codec<S, V>, table: map<string, nat>, e: Element, ps: seq<Property>, pass: Pass<S, V>): (r: Pass<S, V>)
    requires Bound(table, pass.cursors)
    ensures |r.cursors| == |pass.cursors|
    decreases |ps|
  {
    if ps == [] then pass
    else ReadRow(codec, table, e, ps[1..], ReadProperty(codec, table, e, ps[0], pass))
  }

  /** The rows left to read: n more. */
  function ReadRows<S, V>(codec: Codec<S, V>, table: map<string, nat>, e: Element, n: nat, pass: Pass<S, V>): (r: Pass<S, V>)
    requires Bound(table, pass.cursors)
    ensures |r.cursors| == |pass.cursors|
    decreases n
  {
    if n == 0 then pass
    else ReadRows(codec, table, e, n - 1, ReadRow(codec, table, e, e.properties, pass))
  }

  /** The first of n rows, then the n - 1 after it. */
  lemma ReadRowsStep<S, V>(codec: Codec<S, V>, table: map<string, nat>, e: Element, n: nat, pass: Pass<S, V>)
    requires Bound(table, pass.cursors) && n > 0
    ensures Bound(table, ReadRow(codec, table, e, e.properties, pass).cursors)
    ensures ReadRows(codec, table, e, n, pass) == ReadRows(codec, table, e, n - 1, ReadRow(codec, table, e, e.properties, pass))
  {
  }

  /** An element is read only when it was requested, and then for max(Size, 0) rows; an
      element nobody requested is passed over without consuming any input. */
  function ReadElement<S, V>(codec: Codec<S, V>, requested: seq<string>, table: map<string, nat>, e: Element, pass: Pass<S, V>): (r: Pass<S, V>)
    requires Bound(table, pass.cursors)
    ensures |r.cursors| == |pass.cursors|
  {
    if e.name in requested then ReadRows(codec, table, e, Rows(e), pass) else pass
  }

  /** The elements in header order. */
  function ReadElements<S, V>(codec: Codec<S, V>, requested: seq<string>, table: map<string, nat>, es: seq<Element>, pass: Pass<S, V>): (r: Pass<S, V>)
    requires Bound(table, pass.cursors)
    ensures |r.cursors| == |pass.cursors|
    decreases |es|
  {
    if es == [] then pass
    else ReadElements(codec, requested, table, es[1..], ReadElement(codec, requested, table, es[0], pass))
  }

  // ---------------------------------------------------------------------------------------
  // Once an exception is thrown nothing more is read

  lemma {:induction false} ReadRowSticky<S, V>(codec: Codec<S, V>, table: map<string, nat>, e: Element, ps: seq<Property>, pass: Pass<S, V>)
    requires Bound(table, pass.cursors) && pass.failure.Some?
    ensures ReadRow(codec, table, e, ps, pass) == pass
    decreases |ps|
  {
    if ps != [] {
      ReadRowSticky(codec, table, e, ps[1..], pass);
    }
  }

  lemma {:induction false} ReadRowsSticky<S, V>(codec: Codec<S, V>, table: map<string, nat>, e: Element, n: nat, pass: Pass<S, V>)
    requires Bound(table, pass.cursors) && pass.failure.Some?
    ensures ReadRows(codec, table, e, n, pass) == pass
    decreases n
  {
    if n > 0 {
      ReadRowSticky(codec, table, e, e.properties, pass);
      ReadRowsSticky(codec, table, e, n - 1, pass);
    }
  }

  lemma {:induction false} ReadElementsSticky<S, V>(codec: Codec<S, V>, requested: seq<string>, table: map<string, nat>, es: seq<Element>, pass: Pass<S, V>)
    requires Bound(table, pass.cursors) && pass.failure.Some?
    ensures ReadElements(codec, requested, table, es, pass) == pass
    decreases |es|
  {
    if es != [] {
      ReadRowsSticky(codec, table, es[0], Rows(es[0]), pass);
      ReadElementsSticky(codec, requested, table, es[1..], pass);
    }
  }

  // ---------------------------------------------------------------------------------------
  // Properties of the read

  /** Elements nobody requested are passed over: when none of them was requested, the read
      consumes no input and changes no cursor. */
  lemma {:induction false} UnrequestedReadsNothing<S, V>(codec: Codec<S, V>, requested: seq<string>, table: map<string, nat>, es: seq<Element>, pass: Pass<S, V>)
    requires Bound(table, pass.cursors)
    requires forall i :: 0 <= i < |es| ==> es[i].name !in requested
    ensures ReadElements(codec, requested, table, es, pass) == pass
    decreases |es|
  {
    if es != [] {
      assert es[0].name !in requested;
      ReadElementsUnrequestedTail(es);
      UnrequestedReadsNothing(codec, requested, table, es[1..], pass);
    }
  }

  lemma ReadElementsUnrequestedTail(es: seq<Element>)
    requires es != []
    ensures forall i :: 0 <= i < |es| - 1 ==> es[1..][i] == es[i + 1]
  {
  }

  /** n successful reads give n values. */
  lemma {:induction false} ReadValuesTotal<S, V>(codec: Codec<S, V>, k: ScalarKind, n: nat, s: S)
    requires forall k, s :: codec.readData(k, s).0.Some?
    ensures ReadValues(codec, k, n, s).2.None? && |ReadValues(codec, k, n, s).0| == n
    decreases n
  {
    if n > 0 {
      ReadValuesTotal(codec, k, n - 1, codec.readData(k, s).1);
    }
  }

  /** The row a list property adds to a multivector cursor of its type holds exactly as many
      items as the count read before them says, and the earlier rows are kept. */
  lemma ListRowLength<S, V>(codec: Codec<S, V>, t: ScalarKind, rows: seq<seq<V>>, p: Property, s: S)
    requires p.IsList() && p.propertyType == t
    requires forall k, s :: codec.readData(k, s).0.Some?
    requires codec.toCount(codec.readData(p.listType.value, s).0.value).Some?
    ensures var f := ReadListInto(codec, Nested(t, rows), p, s);
      && f.failure.None? && f.buffer.Nested? && f.buffer.kind == t
      && |f.buffer.rows| == |rows| + 1 && f.buffer.rows[..|rows|] == rows
      && |f.buffer.rows[|rows|]| == codec.toCount(codec.readData(p.listType.value, s).0.value).value
  {
    var (cv, s1) := codec.readData(p.listType.value, s);
    var n := codec.toCount(cv.value).value;
    ReadValuesTotal(codec, t, n, s1);
  }

  // ---------------------------------------------------------------------------------------
  // How many values each bound cursor receives

  /** Property p of element e is bound to cursor c. */
  predicate BoundTo(table: map<string, nat>, e: Element, p: Property, c: nat)
  {
    MakeKey(e.name, p.name) in table && table[MakeKey(e.name, p.name)] == c
  }

  /** How many of the properties ps are bound to cursor c. */
  function BoundCount(table: map<string, nat>, e: Element, ps: seq<Property>, c: nat): (n: nat)
    decreases |ps|
  {
    if ps == [] then 0 else (if BoundTo(table, e, ps[0], c) then 1 else 0) + BoundCount(table, e, ps[1..], c)
  }

  /** BoundCount counts every property bound to c and no other: all of them when all are
      bound there, none when none is. */
  lemma {:induction false} BoundCountRange(table: map<string, nat>, e: Element, ps: seq<Property>, c: nat)
    ensures BoundCount(table, e, ps, c) <= |ps|
    ensures (forall p :: p in ps ==> BoundTo(table, e, p, c)) ==> BoundCount(table, e, ps, c) == |ps|
    ensures (forall p :: p in ps ==> !BoundTo(table, e, p, c)) ==> BoundCount(table, e, ps, c) == 0
    decreases |ps|
  {
    if ps != [] {
      assert ps[0] in ps;
      assert forall p :: p in ps[1..] ==> p in ps;
      BoundCountRange(table, e, ps[1..], c);
    }
  }

  /** b' is b with k more values (items or lists) after the ones b holds, of the same kind. */
  ghost predicate Grown<V>(b: Buffer<V>, b': Buffer<V>, k: nat)
  {
    match b
    case Unset => b' == Unset && k == 0
    case Flat(t, items) => b'.Flat? && b'.kind == t && |b'.items| == |items| + k && b'.items[..|items|] == items
    case Nested(t, rows) => b'.Nested? && b'.kind == t && |b'.rows| == |rows| + k && b'.rows[..|rows|] == rows
  }

  lemma GrownNone<V>(b: Buffer<V>)
    ensures Grown(b, b, 0)
  {
    match b
    case Unset =>
    case Flat(_, items) => TakeAll(items);
    case Nested(_, rows) => TakeAll(rows);
  }

  lemma GrownTrans<V>(b1: Buffer<V>, b2: Buffer<V>, b3: Buffer<V>, k1: nat, k2: nat)
    requires Grown(b1, b2, k1) && Grown(b2, b3, k2)
    ensures Grown(b1, b3, k1 + k2)
  {
    match b1
    case Unset =>
    case Flat(_, items) => TakeTake(b3.items, |items|, |b2.items|);
    case Nested(_, rows) => TakeTake(b3.rows, |rows|, |b2.rows|);
  }

  /** Every property of e bound to c can be read into b: a scalar of b's kind into a flat
      list, a list of b's kind into a multivector; nothing is bound to a null vector. */
  ghost predicate Fits<V>(table: map<string, nat>, e: Element, c: nat, b: Buffer<V>)
  {
    forall p :: p in e.properties && BoundTo(table, e, p, c) ==>
      match b
      case Unset => false
      case Flat(t, _) => !p.IsList() && p.propertyType == t
      case Nested(t, _) => p.IsList() && p.propertyType == t
  }

  lemma FitsGrown<V>(table: map<string, nat>, e: Element, c: nat, b: Buffer<V>, b': Buffer<V>, k: nat)
    requires Fits(table, e, c, b) && Grown(b, b', k)
    ensures Fits(table, e, c, b')
  {
  }

  /** The layout AddPropertiesToElement and a complete RequestPropertyFromElement set up fits
      its flat cursor and binds every property to it. */
  lemma FlatLayoutFits<V>(table: map<string, nat>, e: Element, t: ScalarKind, c: nat, items: seq<V>)
    requires FlatLayout(table, e, t, c)
    ensures Fits(table, e, c, Flat(t, items)) && BoundCount(table, e, e.properties, c) == |e.properties|
  {
    BoundCountRange(table, e, e.properties, c);
  }

  /** The layout of a list element fits its multivector cursor and binds its one property to it. */
  lemma ListLayoutFits<V>(table: map<string, nat>, e: Element, c: nat, rows: seq<seq<V>>)
    requires ListLayout(table, e, c)
    ensures Fits(table, e, c, Nested(e.properties[0].propertyType, rows)) && BoundCount(table, e, e.properties, c) == 1
  {
    BoundCountRange(table, e, e.properties, c);
  }

  /** One property read: only the cursor it is bound to can change, and when no exception is
      thrown a cursor that fits it gains one value if the property is bound to it. */
  lemma PropertyFills<S, V>(codec: Codec<S, V>, table: map<string, nat>, e: Element, p: Property, c: nat, pass: Pass<S, V>)
    requires Bound(table, pass.cursors) && c < |pass.cursors|
    requires p in e.properties && Fits(table, e, c, pass.cursors[c])
    ensures var r := ReadProperty(codec, table, e, p, pass);
      && (forall j :: 0 <= j < |pass.cursors| && !BoundTo(table, e, p, j) ==> r.cursors[j] == pass.cursors[j])
      && (r.failure.None? ==> Grown(pass.cursors[c], r.cursors[c], if BoundTo(table, e, p, c) then 1 else 0))
  {
    var b := pass.cursors[c];
    GrownNone(b);
    if pass.failure.None? && BoundTo(table, e, p, c) {
      if p.IsList() {
        var f := ReadListInto(codec, b, p, pass.input);
        if f.failure.None? {
          assert f.buffer.rows[..|b.rows|] == b.rows;
        }
      } else {
        var f := ReadScalarInto(codec, b, p.propertyType, pass.input);
        if f.failure.None? {
          assert f.buffer.items[..|b.items|] == b.items;
        }
      }
    }
  }

  /** The cursors no property of ps is bound to. */
  ghost predicate Untouched(table: map<string, nat>, e: Element, ps: seq<Property>, j: nat)
  {
    forall p :: p in ps ==> !BoundTo(table, e, p, j)
  }

  /** Reading the properties ps leaves the cursors none of them is bound to as they were, and
      when no exception is thrown a fitting cursor c gains one value per property bound to it. */
  ghost predicate RowFilled<S, V>(codec: Codec<S, V>, table: map<string, nat>, e: Element, ps: seq<Property>, c: nat, pass: Pass<S, V>)
    requires Bound(table, pass.cursors) && c < |pass.cursors|
  {
    var r := ReadRow(codec, table, e, ps, pass);
    && (forall j :: 0 <= j < |pass.cursors| && Untouched(table, e, ps, j) ==> r.cursors[j] == pass.cursors[j])
    && (r.failure.None? ==> Grown(pass.cursors[c], r.cursors[c], BoundCount(table, e, ps, c)))
  }

  lemma {:induction false} RowFills<S, V>(codec: Codec<S, V>, table: map<string, nat>, e: Element, ps: seq<Property>, c: nat, pass: Pass<S, V>)
    requires Bound(table, pass.cursors) && c < |pass.cursors|
    requires (forall p :: p in ps ==> p in e.properties) && Fits(table, e, c, pass.cursors[c])
    ensures RowFilled(codec, table, e, ps, c, pass)
    decreases |ps|
  {
    if ps == [] {
      GrownNone(pass.cursors[c]);
    } else {
      assert ps[0] in ps;
      var next := ReadProperty(codec, table, e, ps[0], pass);
      PropertyFills(codec, table, e, ps[0], c, pass);
      if next.failure.Some? {
        ReadRowSticky(codec, table, e, ps[1..], next);
      } else {
        FitsGrown(table, e, c, pass.cursors[c], next.cursors[c], if BoundTo(table, e, ps[0], c) then 1 else 0);
        assert forall p :: p in ps[1..] ==> p in ps;
        RowFills(codec, table, e, ps[1..], c, next);
        var r := ReadRow(codec, table, e, ps[1..], next);
        if r.failure.None? {
          GrownTrans(pass.cursors[c], next.cursors[c], r.cursors[c], if BoundTo(table, e, ps[0], c) then 1 else 0, BoundCount(table, e, ps[1..], c));
        }
      }
    }
  }

  /** n rows: the cursors no property of e is bound to stay as they were, and when no exception
      is thrown a fitting cursor c gains n x (properties bound to c) values. */
  ghost predicate RowsFilled<S, V>(codec: Codec<S, V>, table: map<string, nat>, e: Element, n: nat, c: nat, pass: Pass<S, V>)
    requires Bound(table, pass.cursors) && c < |pass.cursors|
  {
    var r := ReadRows(codec, table, e, n, pass);
    && (forall j :: 0 <= j < |pass.cursors| && Untouched(table, e, e.properties, j) ==> r.cursors[j] == pass.cursors[j])
    && (r.failure.None? ==> Grown(pass.cursors[c], r.cursors[c], n * BoundCount(table, e, e.properties, c)))
  }

  lemma {:induction false} RowsFill<S, V>(codec: Codec<S, V>, table: map<string, nat>, e: Element, n: nat, c: nat, pass: Pass<S, V>)
    requires Bound(table, pass.cursors) && c < |pass.cursors| && Fits(table, e, c, pass.cursors[c])
    ensures RowsFilled(codec, table, e, n, c, pass)
    decreases n
  {
    if n == 0 {
      GrownNone(pass.cursors[c]);
    } else {
      var next := RowsFillStep(codec, table, e, n, c, pass);
      if next.failure.None? {
        RowsFill(codec, table, e, n - 1, c, next);
      }
    }
  }

  /** One step of RowsFill: the first row, in front of the n - 1 after it. */
  lemma RowsFillStep<S, V>(codec: Codec<S, V>, table: map<string, nat>, e: Element, n: nat, c: nat, pass: Pass<S, V>)
      returns (next: Pass<S, V>)
    requires Bound(table, pass.cursors) && c < |pass.cursors| && Fits(table, e, c, pass.cursors[c]) && n > 0
    ensures next == ReadRow(codec, table, e, e.properties, pass)
    ensures Bound(table, next.cursors) && c < |next.cursors|
    ensures next.failure.None? ==> Fits(table, e, c, next.cursors[c])
    ensures next.failure.Some? ==> RowsFilled(codec, table, e, n, c, pass)
    ensures RowsFilled(codec, table, e, n - 1, c, next) ==> RowsFilled(codec, table, e, n, c, pass)
  {
    next := ReadRow(codec, table, e, e.properties, pass);
    RowFills(codec, table, e, e.properties, c, pass);
    ReadRowsStep(codec, table, e, n, pass);
    var k := BoundCount(table, e, e.properties, c);
    if next.failure.Some? {
      ReadRowsSticky(codec, table, e, n - 1, next);
    } else {
      FitsGrown(table, e, c, pass.cursors[c], next.cursors[c], k);
      if RowsFilled(codec, table, e, n - 1, c, next) {
        var r := ReadRows(codec, table, e, n - 1, next);
        if r.failure.None? {
          GrownTrans(pass.cursors[c], next.cursors[c], r.cursors[c], k, (n - 1) * k);
          MulSucc(n - 1, k);
        }
      }
    }
  }

  /** How many values each bound cursor receives. Reading an element leaves every cursor none of
      its properties is bound to unchanged; when the read throws no exception, a cursor c whose
      bound properties fit it keeps what it held and gains Rows x (properties bound to c) values
      if the element was requested, and none otherwise. Properties bound elsewhere or not bound
      at all, such as nx, ny, nz beside a request for x, y, z, do not count towards c. */
  lemma ElementFills<S, V>(codec: Codec<S, V>, requested: seq<string>, table: map<string, nat>, e: Element, c: nat, pass: Pass<S, V>)
    requires Bound(table, pass.cursors) && c < |pass.cursors| && Fits(table, e, c, pass.cursors[c])
    ensures var r := ReadElement(codec, requested, table, e, pass);
      && (forall j :: 0 <= j < |pass.cursors| && Untouched(table, e, e.properties, j) ==> r.cursors[j] == pass.cursors[j])
      && (r.failure.None? ==>
            Grown(pass.cursors[c], r.cursors[c], (if e.name in requested then Rows(e) else 0) * BoundCount(table, e, e.properties, c)))
  {
    if e.name in requested {
      RowsFill(codec, table, e, Rows(e), c, pass);
    } else {
      GrownNone(pass.cursors[c]);
    }
  }

  // ---------------------------------------------------------------------------------------
  // When the read throws no exception

  /** Every cursor fits the properties of e bound to it. */
  ghost predicate AllFit<V>(table: map<string, nat>, e: Element, cursors: seq<Buffer<V>>)
  {
    forall j :: 0 <= j < |cursors| ==> Fits(table, e, j, cursors[j])
  }

  /** When every read and every list count converts, a property bound to a cursor that fits
      it is read without an exception, and the cursors still fit. */
  lemma PropertySucceeds<S, V>(codec: Codec<S, V>, table: map<string, nat>, e: Element, p: Property, pass: Pass<S, V>)
    requires Bound(table, pass.cursors) && pass.failure.None? && (forall k, s :: codec.readData(k, s).0.Some? && codec.toCount(codec.readData(k, s).0.value).Some?)
    requires p in e.properties && AllFit(table, e, pass.cursors)
    ensures var r := ReadProperty(codec, table, e, p, pass);
      r.failure.None? && AllFit(table, e, r.cursors)
  {
    var key := MakeKey(e.name, p.name);
    if key in table {
      var c := table[key];
      var b := pass.cursors[c];
      assert Fits(table, e, c, b) && BoundTo(table, e, p, c);
      if p.IsList() {
        var (cv, s1) := codec.readData(p.listType.value, pass.input);
        ReadValuesTotal(codec, p.propertyType, codec.toCount(cv.value).value, s1);
      }
      PropertyFills(codec, table, e, p, c, pass);
      var r := ReadProperty(codec, table, e, p, pass);
      FitsGrown(table, e, c, b, r.cursors[c], 1);
    }
  }

  lemma {:induction false} RowSucceeds<S, V>(codec: Codec<S, V>, table: map<string, nat>, e: Element, ps: seq<Property>, pass: Pass<S, V>)
    requires Bound(table, pass.cursors) && pass.failure.None? && (forall k, s :: codec.readData(k, s).0.Some? && codec.toCount(codec.readData(k, s).0.value).Some?)
    requires (forall p :: p in ps ==> p in e.properties) && AllFit(table, e, pass.cursors)
    ensures var r := ReadRow(codec, table, e, ps, pass);
      r.failure.None? && AllFit(table, e, r.cursors)
    decreases |ps|
  {
    if ps != [] {
      assert ps[0] in ps;
      PropertySucceeds(codec, table, e, ps[0], pass);
      assert forall p :: p in ps[1..] ==> p in ps;
      RowSucceeds(codec, table, e, ps[1..], ReadProperty(codec, table, e, ps[0], pass));
    }
  }

  lemma {:induction false} RowsSucceed<S, V>(codec: Codec<S, V>, table: map<string, nat>, e: Element, n: nat, pass: Pass<S, V>)
    requires Bound(table, pass.cursors) && pass.failure.None? && (forall k, s :: codec.readData(k, s).0.Some? && codec.toCount(codec.readData(k, s).0.value).Some?) && AllFit(table, e, pass.cursors)
    ensures var r := ReadRows(codec, table, e, n, pass);
      r.failure.None? && AllFit(table, e, r.cursors)
    decreases n
  {
    if n > 0 {
      RowSucceeds(codec, table, e, e.properties, pass);
      RowsSucceed(codec, table, e, n - 1, ReadRow(codec, table, e, e.properties, pass));
    }
  }

  /** When every read converts and every bound property fits its cursor, reading an element
      throws no exception, so ElementFills gives its counts outright. */
  lemma ElementReadSucceeds<S, V>(codec: Codec<S, V>, requested: seq<string>, table: map<string, nat>, e: Element, pass: Pass<S, V>)
    requires Bound(table, pass.cursors) && pass.failure.None? && (forall k, s :: codec.readData(k, s).0.Some? && codec.toCount(codec.readData(k, s).0.value).Some?) && AllFit(table, e, pass.cursors)
    ensures ReadElement(codec, requested, table, e, pass).failure.None?
  {
    RowsSucceed(codec, table, e, Rows(e), pass);
  }

  // ---------------------------------------------------------------------------------------
  // Tokens consumed by the text reader

  /** With the text reader, every property whose key is not bound to a list consumes exactly one
      token, whether it is read or skipped. */
  lemma {:induction false} ScalarRowTokens<V>(codec: Codec<string, V>, table: map<string, nat>, e: Element, ps: seq<Property>, pass: Pass<string, V>)
    requires Bound(table, pass.cursors)
    requires forall k, s :: codec.skipData(k, s) == TextSkipData(k, s) && codec.readData(k, s).1 == TextSkipData(k, s)
    requires forall p :: p in ps && MakeKey(e.name, p.name) in table ==> !p.IsList()
    ensures var r := ReadRow(codec, table, e, ps, pass);
      r.failure.None? ==> Words(r.input) == Drop(Words(pass.input), |ps|)
    decreases |ps|
  {
    if ps != [] {
      assert ps[0] in ps;
      var next := ReadProperty(codec, table, e, ps[0], pass);
      if next.failure.Some? {
        ReadRowSticky(codec, table, e, ps[1..], next);
      } else {
        NextWordStep(pass.input);
        assert Words(next.input) == Drop(Words(pass.input), 1);
        assert forall p :: p in ps[1..] ==> p in ps;
        ScalarRowTokens(codec, table, e, ps[1..], next);
        DropDrop(Words(pass.input), 1, |ps| - 1);
      }
    }
  }

  lemma {:induction false} ScalarRowsTokens<V>(codec: Codec<string, V>, table: map<string, nat>, e: Element, n: nat, pass: Pass<string, V>)
    requires Bound(table, pass.cursors)
    requires forall k, s :: codec.skipData(k, s) == TextSkipData(k, s) && codec.readData(k, s).1 == TextSkipData(k, s)
    requires forall p :: p in e.properties && MakeKey(e.name, p.name) in table ==> !p.IsList()
    ensures var r := ReadRows(codec, table, e, n, pass);
      r.failure.None? ==> Words(r.input) == Drop(Words(pass.input), n * |e.properties|)
    decreases n
  {
    if n > 0 {
      ScalarRowTokens(codec, table, e, e.properties, pass);
      var next := ReadRow(codec, table, e, e.properties, pass);
      if next.failure.Some? {
        ReadRowsSticky(codec, table, e, n - 1, next);
      } else {
        ScalarRowsTokens(codec, table, e, n - 1, next);
        var r := ReadRows(codec, table, e, n - 1, next);
        if r.failure.None? {
          DropRows(Words(pass.input), |e.properties|, n, Words(next.input), Words(r.input));
        }
      }
    }
  }

  /** With the text reader, a requested element none of whose bound properties is a list is read
      one token per property and row, bound or not, when no exception is thrown. */
  lemma ElementTokens<V>(convert: (string, ScalarKind) -> Option<V>, toCount: V -> Option<nat>, requested: seq<string>,
                         table: map<string, nat>, e: Element, pass: Pass<string, V>)
    requires Bound(table, pass.cursors) && e.name in requested
    requires forall p :: p in e.properties && MakeKey(e.name, p.name) in table ==> !p.IsList()
    ensures var r := ReadElement(TextCodec(convert, toCount), requested, table, e, pass);
      r.failure.None? ==> Words(r.input) == Drop(Words(pass.input), Rows(e) * |e.properties|)
  {
    var codec := TextCodec(convert, toCount);
    forall k, s
      ensures codec.skipData(k, s) == TextSkipData(k, s) && codec.readData(k, s).1 == TextSkipData(k, s)
    {
      TextCodecConsumesOneWord(convert, k, s);
    }
    ScalarRowsTokens(codec, table, e, Rows(e), pass);
  }

  /** With the text reader, every property of a row whose keys are all unbound consumes one
      token, lists included. */
  lemma {:induction false} UnboundRowSkips<V>(codec: Codec<string, V>, table: map<string, nat>, e: Element, ps: seq<Property>, pass: Pass<string, V>)
    requires Bound(table, pass.cursors) && pass.failure.None?
    requires forall k, s :: codec.skipData(k, s) == TextSkipData(k, s)
    requires forall p :: p in ps ==> MakeKey(e.name, p.name) !in table
    ensures var r := ReadRow(codec, table, e, ps, pass);
      && r.failure.None? && r.cursors == pass.cursors && Words(r.input) == Drop(Words(pass.input), |ps|)
    decreases |ps|
  {
    if ps != [] {
      assert ps[0] in ps;
      var next := ReadProperty(codec, table, e, ps[0], pass);
      NextWordStep(pass.input);
      assert forall p :: p in ps[1..] ==> p in ps;
      UnboundRowSkips(codec, table, e, ps[1..], next);
      DropDrop(Words(pass.input), 1, |ps| - 1);
    }
  }

  lemma DropDrop(ws: seq<string>, a: nat, b: nat)
    ensures Drop(Drop(ws, a), b) == Drop(ws, a + b)
  {
    if a + b <= |ws| {
      assert ws[a..][b..] == ws[a + b..];
    }
  }

  lemma {:induction false} UnboundRowsSkip<V>(codec: Codec<string, V>, table: map<string, nat>, e: Element, n: nat, pass: Pass<string, V>)
    requires Bound(table, pass.cursors) && pass.failure.None?
    requires forall k, s :: codec.skipData(k, s) == TextSkipData(k, s)
    requires forall p :: p in e.properties ==> MakeKey(e.name, p.name) !in table
    ensures var r := ReadRows(codec, table, e, n, pass);
      && r.failure.None? && r.cursors == pass.cursors && Words(r.input) == Drop(Words(pass.input), n * |e.properties|)
    decreases n
  {
    if n > 0 {
      var k := |e.properties|;
      UnboundRowSkips(codec, table, e, e.properties, pass);
      var next := ReadRow(codec, table, e, e.properties, pass);
      UnboundRowsSkip(codec, table, e, n - 1, next);
      var r := ReadRows(codec, table, e, n - 1, next);
      assert r == ReadRows(codec, table, e, n, pass);
      DropRows(Words(pass.input), k, n, Words(next.input), Words(r.input));
    }
  }

  /** Dropping one row of k tokens, then n - 1 more rows, drops n rows. */
  lemma DropRows(ws: seq<string>, k: nat, n: nat, afterOne: seq<string>, afterAll: seq<string>)
    requires n > 0 && afterOne == Drop(ws, k) && afterAll == Drop(afterOne, (n - 1) * k)
    ensures afterAll == Drop(ws, n * k)
  {
    MulSucc(n - 1, k);
    DropDrop(ws, k, (n - 1) * k);
  }

  /** A requested element none of whose properties is bound is read past in the text format
      one token per property and row, whatever the property's kind: a list property is
      skipped as a single token, so a file whose lists are not bound is misread after it. */
  lemma UnboundElementSkips<V>(codec: Codec<string, V>, requested: seq<string>, table: map<string, nat>, e: Element, pass: Pass<string, V>)
    requires Bound(table, pass.cursors) && pass.failure.None? && e.name in requested
    requires forall k, s :: codec.skipData(k, s) == TextSkipData(k, s)
    requires forall p :: p in e.properties ==> MakeKey(e.name, p.name) !in table
    ensures var r := ReadElement(codec, requested, table, e, pass);
      && r.failure.None? && r.cursors == pass.cursors
      && Words(r.input) == Drop(Words(pass.input), Rows(e) * |e.properties|)
  {
    UnboundRowsSkip(codec, table, e, Rows(e), pass);
  }

  /** The partial bindings a request that returned 0 leaves behind make a later read throw:
      the first property of a row is bound to a cursor whose vector is null. */
  lemma NullCursorBreaksRead<S, V>(codec: Codec<S, V>, requested: seq<string>, table: map<string, nat>, e: Element, c: nat, pass: Pass<S, V>)
    requires Bound(table, pass.cursors) && pass.failure.None? && e.name in requested && Rows(e) > 0
    requires e.properties != [] && !e.properties[0].IsList()
    requires MakeKey(e.name, e.properties[0].name) in table && table[MakeKey(e.name, e.properties[0].name)] == c
    requires c < |pass.cursors| && pass.cursors[c] == Unset
    ensures var r := ReadElement(codec, requested, table, e, pass);
      r.failure == Some(if codec.readData(e.properties[0].propertyType, pass.input).0.None? then MalformedData else NullBuffer)
  {
    var next := ReadProperty(codec, table, e, e.properties[0], pass);
    assert next.failure.Some?;
    ReadRowSticky(codec, table, e, e.properties[1..], next);
    ReadRowsSticky(codec, table, e, Rows(e) - 1, next);
  }
}
