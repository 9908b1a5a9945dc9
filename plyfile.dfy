/** PlyFile.cs: the object a PLY file is read into and written from. Its header fields are
    filled by ParseHeader, its binding table by the Request and Add methods, and Read and Write
    walk the elements with the bound data. Each method is proved against the functions of
    PlyHeader, Binding, Traversal and TextBody that state what it does. */
module PlyFiles {
  import opened Outcomes
  import opened PlyTypes
  import opened Decimal
  import opened StreamHelper
  import opened PlyProperty
  import opened PlyElement
  import opened PlyHeader
  import opened Binding
  import opened Traversal
  import opened TextBody

  /** The progress a header directive leaves: the fields, stopped by the exception if any. */
  function AsProgress(h: Header, failure: Option<PlyError>): Progress
  {
    if failure.Some? then Failed(h, failure.value) else Reading(h)
  }

  /** What Write produces: the header, then (when the header did not throw) the body. */
  function FileText<V>(show: V -> string, table: map<string, nat>, cursors: seq<Buffer<V>>, h: Header, text: string): Out
    requires Bound(table, cursors)
  {
    var (hf, ht) := HeaderText(h);
    if hf.Some? then Out(text + ht, hf)
    else EmitElements(show, table, cursors, h.elements, Out(text + ht, None))
  }

  lemma JoinLinesSnoc(ls: seq<string>, l: string)
    ensures JoinLines(ls + [l]) == JoinLines(ls) + l + NewLine
  {
    assert (ls + [l])[..|ls|] == ls;
  }

  lemma DivTimesFits(a: nat, b: nat)
    requires b > 0
    ensures (a / b) * b <= a
  {
    assert a == (a / b) * b + a % b;
  }

  /** Written back, an element added by AddPropertiesToElement is its data cut into rows of
      one value per key, as many rows as |data| / |keys|: a remainder of |data| % |keys| values
      is not written (stated from any row i on). */
  lemma AddedPropertiesText<V>(show: V -> string, es: seq<Element>, st: Tables<V>, ek: string, keys: seq<string>, t: ScalarKind, data: seq<V>, i: nat, text: string)
    requires st.Valid() && AddProperties(es, st, ek, keys, t, data).0.None?
    ensures (|data| / |keys|) * |keys| <= |data|
    ensures var r := AddProperties(es, st, ek, keys, t, data);
      EmitRows(show, r.2.table, r.2.cursors, r.1[|es|], i, Out(text, None))
         == Out(text + FlatRowsText(show, data, |keys|, i, |data| / |keys|), None)
  {
    AddPropertiesLayout(es, st, ek, keys, t, data);
    DivTimesFits(|data|, |keys|);
    var r := AddProperties(es, st, ek, keys, t, data);
    FlatRowsTextMatches(show, r.2.table, r.2.cursors, r.1[|es|], t, |st.cursors|, data, i, text);
  }

  /** Written back, an element added by AddListPropertyToElement is one line per list of its
      data: the list's count, then its items (stated from any row i on). */
  lemma AddedListText<V>(show: V -> string, es: seq<Element>, st: Tables<V>, ek: string, pk: string, t: ScalarKind, data: seq<seq<V>>, countType: ScalarKind, i: nat, text: string)
    requires st.Valid() && AddList(es, st, ek, pk, t, data, countType).0.None?
    ensures var r := AddList(es, st, ek, pk, t, data, countType);
      EmitRows(show, r.2.table, r.2.cursors, r.1[|es|], i, Out(text, None)) == Out(text + ListRowsText(show, data, i, |data|), None)
  {
    AddListLayout(es, st, ek, pk, t, data, countType);
    var r := AddList(es, st, ek, pk, t, data, countType);
    ListRowsTextMatches(show, r.2.table, r.2.cursors, r.1[|es|], |st.cursors|, t, data, i, text);
  }

  lemma ElementLinesSplit(lines: seq<string>, e: Element)
    ensures lines + ["element " + e.name + " " + IntToString(e.size)] + PropertyLines(e.properties) == lines + ElementLines(e)
  {
  }

  lemma ElementsLinesSnoc(lines: seq<string>, es: seq<Element>, m: nat)
    requires m < |es|
    ensures lines + ElementsLines(es[..m]) + ElementLines(es[m]) == lines + ElementsLines(es[..m + 1])
  {
    TakeOneMore(es, m);
    assert ElementsLines(es[..m + 1]) == ElementsLines(es[..m]) + ElementLines(es[m]);
  }

  lemma HeaderLinesSplit(h: Header)
    ensures [] + ["ply"] + ["format ascii 1.0"] + CommentLines(h.comments) + ElementsLines(h.elements) + ["end_header"] == HeaderLines(h)
  {
  }

  class PlyFile<V> {
    var Elements: seq<Element>
    var Comments: seq<string>
    var ObjInfo: seq<string>
    var IsBinary: bool
    /** _requestedElements */
    var requested: seq<string>
    /** _userDataTable, each key mapped to the index of its DataCursor */
    var table: map<string, nat>
    /** the DataCursors created so far */
    var cursors: seq<Buffer<V>>

    ghost predicate Valid()
      reads this
    {
      Bindings().Valid()
    }

    function Hdr(): Header
      reads this
    {
      Header(Elements, Comments, ObjInfo, IsBinary)
    }

    function Bindings(): Tables<V>
      reads this
    {
      Tables(requested, table, cursors)
    }

    /** PlyFile(): an empty file for writing. */
    constructor ()
      ensures Valid()
      ensures Hdr() == EmptyHeader && Bindings() == Tables([], map[], [])
    {
      Elements := [];
      Comments := [];
      ObjInfo := [];
      IsBinary := false;
      requested := [];
      table := map[];
      cursors := [];
    }

    /** PlyFile(Stream): an empty file whose header is then parsed from the lines given. */
    static method Open(lines: seq<string>) returns (f: PlyFile<V>, failure: Option<PlyError>)
      ensures fresh(f) && f.Valid() && f.Bindings() == Tables([], map[], [])
      ensures var p := ParseHeaderLines(lines, EmptyHeader); f.Hdr() == p.h && failure == Outcome(p)
    {
      f := new PlyFile();
      failure := f.ParseHeader(lines);
    }

    // -------------------------------------------------------------------------------------
    // Header

    /** ReadHeaderText: the rest of the line, added to the given list. */
    static method ReadHeaderText(ls: TextReader, list: seq<string>) returns (list': seq<string>)
      requires ls.Valid()
      modifies ls
      ensures ls.Valid()
      ensures list' == list + [RestOfLine(old(ls.Rest()))]
    {
      var l := ls.ReadLine();
      list' := list + [l];
    }

    /** ReadHeaderFormat: binary_little_endian sets IsBinary, binary_big_endian throws, any
        other word (ascii included) leaves the file as it is. */
    method ReadHeaderFormat(ls: TextReader) returns (failure: Option<PlyError>)
      requires ls.Valid()
      modifies this, ls
      ensures ls.Valid() && Bindings() == old(Bindings())
      ensures AsProgress(Hdr(), failure) == FormatDirective(old(ls.Rest()), old(Hdr()))
    {
      var s := ls.ReadWord();
      failure := None;
      if s == "binary_little_endian" {
        IsBinary := true;
      } else if s == "binary_big_endian" {
        failure := Some(BigEndianNotSupported);
      }
    }

    /** ReadHeaderProperty: Elements.Last() throws on an empty list before the line is parsed;
        otherwise the parsed property is added to the last element. */
    method ReadHeaderProperty(ls: TextReader) returns (failure: Option<PlyError>)
      requires ls.Valid()
      modifies this, ls
      ensures ls.Valid() && Bindings() == old(Bindings())
      ensures AsProgress(Hdr(), failure) == PropertyDirective(old(ls.Rest()), old(Hdr()))
    {
      if Elements == [] {
        return Some(NoCurrentElement);
      }
      var p := ParseProperty(ls);
      if p.Err? {
        return Some(p.error);
      }
      Elements := AddToLast(Elements, p.value);
      failure := None;
    }

    /** ReadHeaderElement: the parsed element is added at the end. */
    method ReadHeaderElement(ls: TextReader) returns (failure: Option<PlyError>)
      requires ls.Valid()
      modifies this, ls
      ensures ls.Valid() && Bindings() == old(Bindings())
      ensures AsProgress(Hdr(), failure) == ElementDirective(old(ls.Rest()), old(Hdr()))
    {
      var e := ParseElement(ls);
      if e.Err? {
        return Some(e.error);
      }
      Elements := Elements + [e.value];
      failure := None;
    }

    /** One line of ParseHeader: its first word decides what the rest of it is. */
    method HeaderLine(line: string) returns (p: Progress)
      modifies this
      ensures Bindings() == old(Bindings())
      ensures p == PlyHeader.HeaderLine(line, old(Hdr())) && p.h == Hdr()
    {
      var ls := new TextReader(line);
      var token := ls.ReadWord();
      p := Dispatch(token, ls);
    }

    /** The if-chain of ParseHeader on the first word of a line. */
    method Dispatch(token: string, ls: TextReader) returns (p: Progress)
      requires ls.Valid()
      modifies this, ls
      ensures Bindings() == old(Bindings())
      ensures p == Directive(token, old(ls.Rest()), old(Hdr())) && p.h == Hdr()
    {
      if token == "ply" || token == "PLY" || token == "" {
        return Reading(Hdr());
      } else if token == "comment" {
        Comments := ReadHeaderText(ls, Comments);
      } else if token == "format" {
        var failure := ReadHeaderFormat(ls);
        return AsProgress(Hdr(), failure);
      } else if token == "element" {
        var failure := ReadHeaderElement(ls);
        return AsProgress(Hdr(), failure);
      } else if token == "property" {
        var failure := ReadHeaderProperty(ls);
        return AsProgress(Hdr(), failure);
      } else if token == "obj_info" {
        ObjInfo := ReadHeaderText(ls, ObjInfo);
      } else if token == "end_header" {
        return Done(Hdr());
      } else {
        return Failed(Hdr(), InvalidHeader);
      }
      p := Reading(Hdr());
    }

    /** ParseHeader: one directive per line until end_header; the first exception stops it
        with the fields as the lines before it left them. */
    method ParseHeader(lines: seq<string>) returns (failure: Option<PlyError>)
      requires Valid()
      modifies this
      ensures Bindings() == old(Bindings())
      ensures var p := ParseHeaderLines(lines, old(Hdr())); Hdr() == p.h && failure == Outcome(p)
      ensures Valid()
    {
      var i := 0;
      while i < |lines|
        invariant 0 <= i <= |lines|
        invariant Bindings() == old(Bindings())
        invariant Run(lines[i..], Reading(Hdr())) == Run(lines, Reading(old(Hdr())))
      {
        assert lines[i..][0] == lines[i] && lines[i..][1..] == lines[i + 1..];
        var p := HeaderLine(lines[i]);
        if !p.Reading? {
          RunStopped(lines[i + 1..], p);
          return Outcome(p);
        }
        i := i + 1;
      }
      failure := Some(HeaderNotTerminated);
    }
  
    // -------------------------------------------------------------------------------------
    // Binding data to properties

    /** The local function InstanceCounter of RequestPropertyFromElement: the first element of
        that name with a property of that name decides. */
    method InstanceCounter(ek: string, pk: string, t: ScalarKind) returns (r: Result<int>)
      ensures r == InstanceCount(Elements, ek, pk, t)
    {
      var i := 0;
      while i < |Elements|
        invariant 0 <= i <= |Elements|
        invariant InstanceCount(Elements[i..], ek, pk, t) == InstanceCount(Elements, ek, pk, t)
      {
        var e := Elements[i];
        assert Elements[i..][0] == e && Elements[i..][1..] == Elements[i + 1..];
        if e.name == ek {
          var j := 0;
          while j < |e.properties|
            invariant 0 <= j <= |e.properties|
            invariant forall j' :: 0 <= j' < j ==> e.properties[j'].name != pk
          {
            var p := e.properties[j];
            if p.name == pk {
              assert FindProperty(e.properties, pk) == Some(j);
              if p.propertyType != t {
                return Err(WrongType);
              }
              return Ok(e.size);
            }
            j := j + 1;
          }
          assert FindProperty(e.properties, pk) == None;
        }
        i := i + 1;
      }
      r := Ok(0);
    }

    /** One pass of the foreach over the keys of RequestPropertyFromElement. */
    method BindPropertyKey(ek: string, key: string, t: ScalarKind, c: nat, counts: seq<int>) returns (st: KeyLoop)
      modifies this
      ensures Hdr() == old(Hdr()) && requested == old(requested) && cursors == old(cursors)
      ensures st == BindKey(Elements, ek, t, c, Looping(old(table), counts), key) && table == st.table
    {
      var n := InstanceCounter(ek, key, t);
      if n.Err? {
        return Exited(table, n);
      }
      if n.value == 0 {
        return Exited(table, Ok(0));
      }
      var userKey := MakeKey(ek, key);
      if userKey in table {
        return Exited(table, Err(AlreadyRequested));
      }
      table := table[userKey := c];
      st := Looping(table, counts + [n.value]);
    }

    /** The foreach over the keys of RequestPropertyFromElement, binding each key to cursor c. */
    method BindPropertyKeys(ek: string, keys: seq<string>, t: ScalarKind, c: nat) returns (st: KeyLoop)
      modifies this
      ensures Hdr() == old(Hdr()) && requested == old(requested) && cursors == old(cursors)
      ensures st == BindKeys(Elements, ek, t, c, old(table), keys) && table == st.table
    {
      st := Looping(table, []);
      ghost var es, t0 := Elements, table;
      var i := 0;
      while i < |keys|
        invariant 0 <= i <= |keys|
        invariant Elements == es && Comments == old(Comments) && ObjInfo == old(ObjInfo) && IsBinary == old(IsBinary)
        invariant requested == old(requested) && cursors == old(cursors)
        invariant st.Looping? && BindKeys(es, ek, t, c, t0, keys[..i]) == st && table == st.table
      {
        st := BindPropertyKey(ek, keys[i], t, c, st.counts);
        BindKeysStep(es, ek, t, c, t0, keys, i, st);
        if st.Exited? {
          return;
        }
        i := i + 1;
      }
      TakeAll(keys);
    }

    /** RequestPropertyFromElement<T>: binds every key to one new flat cursor over data and
        returns the element's Size. */
    method RequestPropertyFromElement(ek: string, keys: seq<string>, t: ScalarKind, data: seq<V>) returns (r: Result<int>)
      requires Valid()
      modifies this
      ensures Hdr() == old(Hdr())
      ensures (r, Bindings()) == Request(old(Elements), old(Bindings()), ek, keys, t, data)
      ensures Valid()
    {
      if |Elements| == 0 || !HasElement(Elements, ek) {
        return Ok(0);
      }
      if ek !in requested {
        requested := requested + [ek];
      }
      var c := |cursors|;
      cursors := cursors + [Unset];
      var st := BindPropertyKeys(ek, keys, t, c);
      if st.Exited? {
        r := st.result;
      } else {
        var total := CheckedSum(st.counts);
        if total.None? {
          r := Err(SumOverflow);
        } else {
          cursors := cursors[c := Flat(t, data)];
          r := if |keys| == 0 then Err(DivideByZero) else Ok(CsDiv(total.value, |keys|));
        }
      }
    }

    /** RequestListPropertyFromElement<T>: binds the key to one new multivector cursor. */
    method RequestListPropertyFromElement(ek: string, pk: string, t: ScalarKind, data: seq<seq<V>>) returns (failure: Option<PlyError>)
      requires Valid()
      modifies this
      ensures Hdr() == old(Hdr())
      ensures (failure, Bindings()) == RequestList(old(Elements), old(Bindings()), ek, pk, t, data)
      ensures Valid()
    {
      ghost var expected := RequestList(Elements, Bindings(), ek, pk, t, data);
      assert expected.1.Valid();
      if |Elements| == 0 {
        return None;
      }
      if HasElement(Elements, ek) {
        if ek !in requested {
          requested := requested + [ek];
        }
      } else {
        return None;
      }
      var c := |cursors|;
      cursors := cursors + [Unset];
      var userKey := MakeKey(ek, pk);
      if userKey in table {
        return Some(AlreadyRequested);
      }
      table := table[userKey := c];
      cursors := cursors[c := Nested(t, data)];
      failure := None;
    }

    /** The foreach over the keys of AddPropertiesToElement: one property of kind T per key,
        each key bound to cursor c. */
    method AddPropertyKeys(ek: string, keys: seq<string>, t: ScalarKind, c: nat) returns (props: seq<Property>, failure: Option<PlyError>)
      modifies this
      ensures Hdr() == old(Hdr()) && requested == old(requested) && cursors == old(cursors)
      ensures (table, failure) == AddKeys(ek, c, old(table), keys)
      ensures failure.None? ==> props == ScalarProperties(t, keys)
    {
      props := [];
      var i := 0;
      while i < |keys|
        invariant 0 <= i <= |keys|
        invariant Elements == old(Elements) && Comments == old(Comments) && ObjInfo == old(ObjInfo) && IsBinary == old(IsBinary)
        invariant requested == old(requested) && cursors == old(cursors)
        invariant props == ScalarProperties(t, keys[..i])
        invariant AddKeys(ek, c, old(table), keys[..i]) == (table, None)
      {
        AddKeysNext(ek, c, old(table), keys, i);
        ScalarPropertiesSnoc(t, keys, i);
        props := props + [ScalarProperty(t, keys[i])];
        var userKey := MakeKey(ek, keys[i]);
        if userKey in table {
          AddKeysFailedSticky(ek, c, old(table), keys, i + 1);
          return props, Some(AlreadyRequested);
        }
        table := table[userKey := c];
        i := i + 1;
      }
      TakeAll(keys);
      failure := None;
    }

    /** AddPropertiesToElement<T>: a new element of |data| / |keys| rows with one property of
        kind T per key, all bound to one flat cursor over data. */
    method AddPropertiesToElement(ek: string, keys: seq<string>, t: ScalarKind, data: seq<V>) returns (failure: Option<PlyError>)
      requires Valid()
      modifies this
      ensures Comments == old(Comments) && ObjInfo == old(ObjInfo) && IsBinary == old(IsBinary)
      ensures (failure, Elements, Bindings()) == AddProperties(old(Elements), old(Bindings()), ek, keys, t, data)
      ensures Valid()
    {
      if HasElement(Elements, ek) {
        return Some(ElementExists);
      }
      var c := |cursors|;
      cursors := cursors + [Unset];
      if |keys| == 0 {
        return Some(DivideByZero);
      }
      var size := |data| / |keys|;
      var props;
      props, failure := AddPropertyKeys(ek, keys, t, c);
      if failure.Some? {
        return;
      }
      Elements := Elements + [Element(ek, size, props)];
      cursors := cursors[c := Flat(t, data)];
    }

    /** AddListPropertyToElement<T>(elementKey, propertyKey, data, listCountType): a new element
        of |data| rows with one list property, bound to one multivector cursor over data. */
    method AddListPropertyToElement(ek: string, pk: string, t: ScalarKind, data: seq<seq<V>>, countType: ScalarKind) returns (failure: Option<PlyError>)
      requires Valid()
      modifies this
      ensures Comments == old(Comments) && ObjInfo == old(ObjInfo) && IsBinary == old(IsBinary)
      ensures (failure, Elements, Bindings()) == AddList(old(Elements), old(Bindings()), ek, pk, t, data, countType)
      ensures Valid()
    {
      if HasElement(Elements, ek) {
        return Some(ElementExists);
      }
      var c := |cursors|;
      cursors := cursors + [Unset];
      var e := NamedElement(ek);
      e := e.(size := |data|, properties := [ListProperty(countType, t, pk)]);
      var userKey := MakeKey(ek, pk);
      if userKey in table {
        return Some(AlreadyRequested);
      }
      table := table[userKey := c];
      Elements := Elements + [e];
      cursors := cursors[c := Nested(t, data)];
      failure := None;
    }

    /** AddListPropertyToElement<T>(elementKey, propertyKey, data): the count type is ushort. */
    method AddListProperty(ek: string, pk: string, t: ScalarKind, data: seq<seq<V>>) returns (failure: Option<PlyError>)
      requires Valid()
      modifies this
      ensures Comments == old(Comments) && ObjInfo == old(ObjInfo) && IsBinary == old(IsBinary)
      ensures (failure, Elements, Bindings()) == AddList(old(Elements), old(Bindings()), ek, pk, t, data, UShort)
      ensures Valid()
    {
      failure := AddListPropertyToElement(ek, pk, t, data, UShort);
    }
  
    // -------------------------------------------------------------------------------------
    // Reading the body

    /** `cursor.vector.Add(readData(k))` for cursor c. */
    method AddRead<S>(codec: Codec<S, V>, c: nat, k: ScalarKind, s: S) returns (rest: S, failure: Option<PlyError>)
      requires c < |cursors|
      modifies this
      ensures Hdr() == old(Hdr()) && requested == old(requested) && table == old(table)
      ensures var f := ReadScalarInto(codec, old(cursors)[c], k, s);
        cursors == old(cursors)[c := f.buffer] && rest == f.input && failure == f.failure
    {
      var (v, s1) := codec.readData(k, s);
      rest := s1;
      if v.None? {
        return rest, Some(MalformedData);
      }
      var b := AppendValue(cursors[c], k, v.value);
      if b.Err? {
        return rest, Some(b.error);
      }
      cursors := cursors[c := b.value];
      failure := None;
    }

    /** `for (i = 0; i < listSize; ++i) sourceList.Add(readData(k))` with the cursor c, which
        does not hold lists, as the list. */
    method AddReadItems<S>(codec: Codec<S, V>, c: nat, k: ScalarKind, n: nat, s: S) returns (rest: S, failure: Option<PlyError>)
      requires c < |cursors|
      modifies this
      ensures Hdr() == old(Hdr()) && requested == old(requested) && table == old(table)
      ensures var f := AddItems(codec, old(cursors)[c], k, n, s);
        cursors == old(cursors)[c := f.buffer] && rest == f.input && failure == f.failure
    {
      rest, failure := s, None;
      var i: nat := 0;
      while i < n
        invariant i <= n && c < |cursors| && failure.None?
        invariant Elements == old(Elements) && Comments == old(Comments) && ObjInfo == old(ObjInfo) && IsBinary == old(IsBinary)
        invariant requested == old(requested) && table == old(table)
        invariant cursors == old(cursors)[c := cursors[c]]
        invariant AddItems(codec, cursors[c], k, n - i, rest) == AddItems(codec, old(cursors)[c], k, n, s)
      {
        rest, failure := AddRead(codec, c, k, rest);
        if failure.Some? {
          return;
        }
        i := i + 1;
      }
    }

    /** The items of a list property read into a new row of the multivector cursor c. */
    method AddReadRow<S>(codec: Codec<S, V>, c: nat, k: ScalarKind, n: nat, s: S) returns (rest: S, failure: Option<PlyError>)
      requires c < |cursors| && cursors[c].Nested?
      modifies this
      ensures Hdr() == old(Hdr()) && requested == old(requested) && table == old(table)
      ensures var b := old(cursors)[c]; var (vs, s2, fl) := ReadValues(codec, k, n, s);
        cursors == old(cursors)[c := Nested(b.kind, b.rows + [vs])] && rest == s2 && failure == fl
    {
      var b := cursors[c];
      ghost var goal := ReadValues(codec, k, n, s);
      var row: seq<V> := [];
      cursors := cursors[c := Nested(b.kind, b.rows + [row])];
      rest := s;
      ghost var cs0 := old(cursors);
      var i: nat := 0;
      while i < n
        invariant i <= n
        invariant Elements == old(Elements) && Comments == old(Comments) && ObjInfo == old(ObjInfo) && IsBinary == old(IsBinary)
        invariant requested == old(requested) && table == old(table)
        invariant cursors == cs0[c := Nested(b.kind, b.rows + [row])]
        invariant var r := ReadValues(codec, k, n - i, rest); row + r.0 == goal.0 && r.1 == goal.1 && r.2 == goal.2
      {
        var (v, s1) := codec.readData(k, rest);
        rest := s1;
        if v.None? {
          AppendEmpty(row);
          return rest, Some(MalformedData);
        }
        AppendOne(row, v.value, ReadValues(codec, k, n - i - 1, rest).0);
        row := row + [v.value];
        cursors := cursors[c := Nested(b.kind, b.rows + [row])];
        i := i + 1;
      }
      AppendEmpty(row);
      failure := None;
    }

    /** The list branch of Read for cursor c: the count first, then the items. */
    method ReadList<S>(codec: Codec<S, V>, c: nat, p: Property, s: S) returns (rest: S, failure: Option<PlyError>)
      requires c < |cursors| && p.IsList()
      modifies this
      ensures Hdr() == old(Hdr()) && requested == old(requested) && table == old(table)
      ensures var f := ReadListInto(codec, old(cursors)[c], p, s);
        cursors == old(cursors)[c := f.buffer] && rest == f.input && failure == f.failure
    {
      var (cv, s1) := codec.readData(p.listType.value, s);
      if cv.None? {
        return s1, Some(MalformedData);
      }
      var n := codec.toCount(cv.value);
      if n.None? {
        return s1, Some(CountOverflow);
      }
      var b := cursors[c];
      if b.Nested? {
        if b.kind != p.propertyType {
          return s1, Some(WrongBufferType);
        }
        rest, failure := AddReadRow(codec, c, p.propertyType, n.value, s1);
      } else {
        rest, failure := AddReadItems(codec, c, p.propertyType, n.value, s1);
      }
    }

    /** One property of one row: read into its cursor when its key is bound, skipped otherwise. */
    method ReadOne<S>(codec: Codec<S, V>, e: Element, p: Property, s: S) returns (rest: S, failure: Option<PlyError>)
      requires Bound(table, cursors)
      modifies this
      ensures Hdr() == old(Hdr()) && requested == old(requested) && table == old(table)
      ensures Pass(cursors, rest, failure) == Traversal.ReadProperty(codec, table, e, p, Pass(old(cursors), s, None))
    {
      var key := MakeKey(e.name, p.name);
      if key !in table {
        return codec.skipData(p.propertyType, s), None;
      }
      var c := table[key];
      if p.IsList() {
        rest, failure := ReadList(codec, c, p, s);
      } else {
        rest, failure := AddRead(codec, c, p.propertyType, s);
      }
    }

    /** The properties of one row, in header order. */
    method ReadRowOf<S>(codec: Codec<S, V>, e: Element, s: S) returns (rest: S, failure: Option<PlyError>)
      requires Bound(table, cursors)
      modifies this
      ensures Hdr() == old(Hdr()) && requested == old(requested) && table == old(table)
      ensures Pass(cursors, rest, failure) == ReadRow(codec, table, e, e.properties, Pass(old(cursors), s, None))
    {
      rest := s;
      var j := 0;
      while j < |e.properties|
        invariant j <= |e.properties| && Bound(table, cursors)
        invariant Elements == old(Elements) && Comments == old(Comments) && ObjInfo == old(ObjInfo) && IsBinary == old(IsBinary)
        invariant requested == old(requested) && table == old(table)
        invariant ReadRow(codec, table, e, e.properties[j..], Pass(cursors, rest, None))
          == ReadRow(codec, table, e, e.properties, Pass(old(cursors), s, None))
      {
        assert e.properties[j..][1..] == e.properties[j + 1..];
        rest, failure := ReadOne(codec, e, e.properties[j], rest);
        if failure.Some? {
          ReadRowSticky(codec, table, e, e.properties[j + 1..], Pass(cursors, rest, failure));
          return;
        }
        j := j + 1;
      }
      failure := None;
    }

    /** The rows of one element: a requested one is read for max(Size, 0) rows, the others
        are passed over. */
    method ReadElementOf<S>(codec: Codec<S, V>, e: Element, s: S) returns (rest: S, failure: Option<PlyError>)
      requires Bound(table, cursors)
      modifies this
      ensures Hdr() == old(Hdr()) && requested == old(requested) && table == old(table)
      ensures Pass(cursors, rest, failure) == ReadElement(codec, requested, table, e, Pass(old(cursors), s, None))
    {
      rest, failure := s, None;
      if e.name !in requested {
        return;
      }
      var count := 0;
      while count < e.size
        invariant 0 <= count <= Rows(e) && Bound(table, cursors) && failure.None?
        invariant Elements == old(Elements) && Comments == old(Comments) && ObjInfo == old(ObjInfo) && IsBinary == old(IsBinary)
        invariant requested == old(requested) && table == old(table)
        invariant ReadRows(codec, table, e, Rows(e) - count, Pass(cursors, rest, None))
          == ReadRows(codec, table, e, Rows(e), Pass(old(cursors), s, None))
      {
        rest, failure := ReadRowOf(codec, e, rest);
        if failure.Some? {
          ReadRowsSticky(codec, table, e, Rows(e) - count - 1, Pass(cursors, rest, failure));
          return;
        }
        count := count + 1;
      }
      assert count == Rows(e);
    }

    /** Read(readData, skipData): the elements in header order, stopped by the first
        exception; S is the stream behind the two delegates. */
    method Read<S>(codec: Codec<S, V>, s: S) returns (rest: S, failure: Option<PlyError>)
      requires Valid()
      modifies this
      ensures Hdr() == old(Hdr()) && requested == old(requested) && table == old(table)
      ensures Pass(cursors, rest, failure) == ReadElements(codec, requested, table, Elements, Pass(old(cursors), s, None))
      ensures Valid()
    {
      rest, failure := s, None;
      var m := 0;
      while m < |Elements|
        invariant m <= |Elements| && Bound(table, cursors) && failure.None?
        invariant Elements == old(Elements) && Comments == old(Comments) && ObjInfo == old(ObjInfo) && IsBinary == old(IsBinary)
        invariant requested == old(requested) && table == old(table)
        invariant ReadElements(codec, requested, table, Elements[m..], Pass(cursors, rest, None))
          == ReadElements(codec, requested, table, Elements, Pass(old(cursors), s, None))
      {
        assert Elements[m..][1..] == Elements[m + 1..];
        rest, failure := ReadElementOf(codec, Elements[m], rest);
        if failure.Some? {
          ReadElementsSticky(codec, requested, table, Elements[m + 1..], Pass(cursors, rest, failure));
          return;
        }
        m := m + 1;
      }
      assert Elements[m..] == [];
    }
  
    /** ReadTextInternal: Read with the text reader's ReadData and SkipData. */
    method ReadTextInternal(convert: (string, ScalarKind) -> Option<V>, toCount: V -> Option<nat>, text: string) returns (rest: string, failure: Option<PlyError>)
      requires Valid()
      modifies this
      ensures Hdr() == old(Hdr()) && requested == old(requested) && table == old(table)
      ensures Pass(cursors, rest, failure) == ReadElements(TextCodec(convert, toCount), requested, table, Elements, Pass(old(cursors), text, None))
      ensures Valid()
    {
      rest, failure := Read(TextCodec(convert, toCount), text);
    }

    /** ReadBinaryInternal: Read with the binary reader's ReadData and SkipData. */
    method ReadBinaryInternal(decode: (seq<byte>, ScalarKind) -> V, toCount: V -> Option<nat>, bytes: seq<byte>) returns (rest: seq<byte>, failure: Option<PlyError>)
      requires Valid()
      modifies this
      ensures Hdr() == old(Hdr()) && requested == old(requested) && table == old(table)
      ensures Pass(cursors, rest, failure) == ReadElements(BinaryCodec(decode, toCount), requested, table, Elements, Pass(old(cursors), bytes, None))
      ensures Valid()
    {
      rest, failure := Read(BinaryCodec(decode, toCount), bytes);
    }

    // -------------------------------------------------------------------------------------
    // Writing

    /** One WriteLine of the header, with the lines written so far as a ghost. */
    static method WriteHeaderLine(w: TextWriter, ghost base: string, ghost lines: seq<string>, l: string)
      requires w.written == base + JoinLines(lines)
      modifies w
      ensures w.written == base + JoinLines(lines + [l])
    {
      w.WriteLine(l);
      JoinLinesSnoc(lines, l);
      assert base + JoinLines(lines) + l + NewLine == base + (JoinLines(lines) + l + NewLine);
    }

    /** The property lines of WriteHeader, one per property. */
    static method WritePropertyLines(w: TextWriter, ghost base: string, ghost lines: seq<string>, ps: seq<Property>)
      requires w.written == base + JoinLines(lines)
      modifies w
      ensures w.written == base + JoinLines(lines + PropertyLines(ps))
    {
      ghost var ls := lines;
      var j := 0;
      while j < |ps|
        invariant j <= |ps|
        invariant ls == lines + PropertyLines(ps[..j])
        invariant w.written == base + JoinLines(ls)
      {
        var line := PropertyLine(ps[j]);
        WriteHeaderLine(w, base, ls, line);
        PropertyLinesSnoc(ps, j);
        AppendAssoc(lines, PropertyLines(ps[..j]), [line]);
        ls := ls + [line];
        j := j + 1;
      }
      TakeAll(ps);
    }

    /** The element line of WriteHeader, then its property lines. */
    static method WriteElementHeader(w: TextWriter, ghost base: string, ghost lines: seq<string>, e: Element)
      requires w.written == base + JoinLines(lines)
      modifies w
      ensures w.written == base + JoinLines(lines + ElementLines(e))
    {
      var el := "element " + e.name + " " + IntToString(e.size);
      WriteHeaderLine(w, base, lines, el);
      WritePropertyLines(w, base, lines + [el], e.properties);
      ElementLinesSplit(lines, e);
    }

    /** The element lines of WriteHeader, in order. */
    static method WriteElementsHeader(w: TextWriter, ghost base: string, ghost lines: seq<string>, es: seq<Element>)
      requires w.written == base + JoinLines(lines)
      modifies w
      ensures w.written == base + JoinLines(lines + ElementsLines(es))
    {
      ghost var ls := lines;
      var m := 0;
      while m < |es|
        invariant m <= |es|
        invariant ls == lines + ElementsLines(es[..m])
        invariant w.written == base + JoinLines(ls)
      {
        WriteElementHeader(w, base, ls, es[m]);
        ElementsLinesSnoc(lines, es, m);
        ls := ls + ElementLines(es[m]);
        m := m + 1;
      }
      assert es[..m] == es;
    }

    /** The comment lines of WriteHeader. */
    static method WriteComments(w: TextWriter, ghost base: string, ghost lines: seq<string>, comments: seq<string>)
      requires w.written == base + JoinLines(lines)
      modifies w
      ensures w.written == base + JoinLines(lines + CommentLines(comments))
    {
      ghost var ls := lines;
      var i := 0;
      while i < |comments|
        invariant i <= |comments|
        invariant ls == lines + CommentLines(comments[..i])
        invariant w.written == base + JoinLines(ls)
      {
        WriteHeaderLine(w, base, ls, "comment " + comments[i]);
        CommentLinesSnoc(comments, i);
        AppendAssoc(lines, CommentLines(comments[..i]), ["comment " + comments[i]]);
        ls := ls + ["comment " + comments[i]];
        i := i + 1;
      }
      TakeAll(comments);
    }

    /** WriteHeader: "ply", then for an ascii file the format line, the comments, each element
        with its properties, and "end_header"; a binary file throws after the first line. */
    method WriteHeader(w: TextWriter) returns (failure: Option<PlyError>)
      modifies w
      ensures failure == HeaderText(Hdr()).0 && w.written == old(w.written) + HeaderText(Hdr()).1
    {
      ghost var base := w.written;
      ghost var lines: seq<string> := [];
      assert w.written == base + JoinLines(lines);
      WriteHeaderLine(w, base, lines, "ply");
      lines := lines + ["ply"];
      if IsBinary {
        return Some(BinaryNotImplemented);
      }
      WriteHeaderLine(w, base, lines, "format ascii 1.0");
      lines := lines + ["format ascii 1.0"];
      WriteComments(w, base, lines, Comments);
      lines := lines + CommentLines(Comments);
      WriteElementsHeader(w, base, lines, Elements);
      lines := lines + ElementsLines(Elements);
      WriteHeaderLine(w, base, lines, "end_header");
      HeaderLinesSplit(Hdr());
      failure := None;
    }

    /** One cell of WriteTextInternal: the data bound to the property's key at index idx. */
    method WriteCell(w: TextWriter, show: V -> string, e: Element, p: Property, idx: nat) returns (failure: Option<PlyError>)
      requires Bound(table, cursors)
      modifies w
      ensures match CellText(show, table, cursors, e, p, idx)
        case Ok(t) => failure.None? && w.written == old(w.written) + t
        case Err(x) => failure == Some(x) && w.written == old(w.written)
    {
      var key := MakeKey(e.name, p.name);
      if key !in table {
        return Some(KeyNotFound);
      }
      var b := cursors[table[key]];
      if p.IsList() {
        if !b.Nested? {
          return Some(ListNeedsMultivector);
        }
        if idx >= |b.rows| {
          return Some(IndexOutOfRange);
        }
        var row := b.rows[idx];
        w.WriteData(IntToString(|row|));
        var j := 0;
        while j < |row|
          invariant j <= |row|
          invariant w.written == old(w.written) + IntToString(|row|) + " " + Spaced(show, row[..j])
        {
          w.WriteData(show(row[j]));
          SpacedSnoc(show, row[..j], row[j]);
          assert row[..j + 1] == row[..j] + [row[j]];
          j := j + 1;
        }
        assert row[..j] == row;
        assert old(w.written) + IntToString(|row|) + " " + Spaced(show, row)
          == old(w.written) + (IntToString(|row|) + " " + Spaced(show, row));
      } else {
        match b
        case Unset =>
          return Some(NullBuffer);
        case Flat(_, items) =>
          if idx >= |items| {
            return Some(IndexOutOfRange);
          }
          w.WriteData(show(items[idx]));
          assert old(w.written) + show(items[idx]) + " " == old(w.written) + (show(items[idx]) + " ");
        case Nested(k, rows) =>
          if idx >= |rows| {
            return Some(IndexOutOfRange);
          }
          w.WriteData(ListTypeName(k));
          assert old(w.written) + ListTypeName(k) + " " == old(w.written) + (ListTypeName(k) + " ");
      }
      failure := None;
    }

    /** One row of WriteTextInternal: a cell per property at the running index, then a line break. */
    method WriteRow(w: TextWriter, show: V -> string, e: Element, i: nat, current: nat) returns (current': nat, failure: Option<PlyError>)
      requires Bound(table, cursors) && current == i * |e.properties|
      modifies w
      ensures failure.None? ==> current' == current + |e.properties|
      ensures Out(w.written, failure) == EndRow(EmitCells(show, table, cursors, e, i, 0, Out(old(w.written), None)))
    {
      current' := current;
      var j := 0;
      while j < |e.properties|
        invariant j <= |e.properties| && current' == i * |e.properties| + j
        invariant EmitCells(show, table, cursors, e, i, j, Out(w.written, None))
          == EmitCells(show, table, cursors, e, i, 0, Out(old(w.written), None))
      {
        ghost var before := w.written;
        failure := WriteCell(w, show, e, e.properties[j], current');
        EmitCellsStep(show, table, cursors, e, i, j, current', before, w.written, failure);
        if failure.Some? {
          return;
        }
        current' := current' + 1;
        j := j + 1;
      }
      AppendEmpty(w.written);
      w.WriteLine("");
      failure := None;
    }
  
    /** The rows of one element in WriteTextInternal: `current` restarts at 0 for every
        element and advances by one per cell. */
    method WriteElement(w: TextWriter, show: V -> string, e: Element) returns (failure: Option<PlyError>)
      requires Bound(table, cursors)
      modifies w
      ensures Out(w.written, failure) == EmitRows(show, table, cursors, e, 0, Out(old(w.written), None))
    {
      failure := None;
      var current: nat := 0;
      var i: nat := 0;
      while i < e.size
        invariant i <= Rows(e) && current == i * |e.properties| && failure.None?
        invariant EmitRows(show, table, cursors, e, i, Out(w.written, None))
          == EmitRows(show, table, cursors, e, 0, Out(old(w.written), None))
      {
        current, failure := WriteRow(w, show, e, i, current);
        if failure.Some? {
          EmitRowsSticky(show, table, cursors, e, i + 1, Out(w.written, failure));
          return;
        }
        i := i + 1;
      }
      assert i == Rows(e);
    }

    /** WriteTextInternal: every element in order, whether or not it was requested. */
    method WriteTextInternal(w: TextWriter, show: V -> string) returns (failure: Option<PlyError>)
      requires Bound(table, cursors)
      modifies w
      ensures Out(w.written, failure) == EmitElements(show, table, cursors, Elements, Out(old(w.written), None))
    {
      failure := None;
      var m := 0;
      while m < |Elements|
        invariant m <= |Elements| && failure.None?
        invariant EmitElements(show, table, cursors, Elements[m..], Out(w.written, None))
          == EmitElements(show, table, cursors, Elements, Out(old(w.written), None))
      {
        assert Elements[m..][1..] == Elements[m + 1..];
        failure := WriteElement(w, show, Elements[m]);
        if failure.Some? {
          EmitElementsSticky(show, table, cursors, Elements[m + 1..], Out(w.written, failure));
          return;
        }
        m := m + 1;
      }
      assert Elements[m..] == [];
    }

    /** Write(stream, isBinary): the format is set first, then the header and the ascii body
        are written; a binary file throws once "ply" is out. */
    method Write(w: TextWriter, isBinary: bool, show: V -> string) returns (failure: Option<PlyError>)
      requires Valid()
      modifies this, w
      ensures Hdr() == old(Hdr()).(isBinary := isBinary) && Bindings() == old(Bindings())
      ensures Out(w.written, failure) == FileText(show, table, cursors, Hdr(), old(w.written))
      ensures Valid()
    {
      IsBinary := isBinary;
      failure := WriteHeader(w);
      if failure.Some? {
        return;
      }
      failure := WriteTextInternal(w, show);
    }
  }
}
