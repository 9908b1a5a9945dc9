/** The binding table of PlyFile.cs: which elements were requested, which (element, property)
    keys are bound, and the data cursors they are bound to. Several keys share one cursor, so a
    cursor is an index into the sequence of cursors created so far. */
module Binding {
  import opened Outcomes
  import opened PlyTypes
  import opened Decimal
  import opened PlyProperty
  import opened PlyElement

  /** A DataCursor: its vector never set (null), a flat List<T>, or a List<List<T>> with
      isMultivector set. The kind is the T of the list. */
  datatype Buffer<V> = Unset | Flat(kind: ScalarKind, items: seq<V>) | Nested(kind: ScalarKind, rows: seq<seq<V>>)

  /** Every bound key names a cursor that exists. */
  predicate Bound<V>(table: map<string, nat>, cursors: seq<Buffer<V>>)
  {
    forall key :: key in table ==> table[key] < |cursors|
  }

  /** _requestedElements, _userDataTable (key to cursor index) and the cursors themselves. */
  datatype Tables<V> = Tables(requested: seq<string>, table: map<string, nat>, cursors: seq<Buffer<V>>)
  {
    /** Every key is bound to a cursor that exists, and no element is recorded twice. */
    ghost predicate Valid()
    {
      && Bound(table, cursors)
      && (forall i, j :: 0 <= i < j < |requested| ==> requested[i] != requested[j])
    }
  }

  /** Nothing bound is ever rebound or dropped, and no existing cursor is replaced. */
  ghost predicate Extends<V>(a: Tables<V>, b: Tables<V>)
  {
    && (forall key :: key in a.table ==> key in b.table && b.table[key] == a.table[key])
    && |a.cursors| <= |b.cursors| && b.cursors[..|a.cursors|] == a.cursors
    && (forall x :: x in a.requested ==> x in b.requested)
  }

  /** Elements.FindIndex(x => x.Name == name) >= 0. */
  predicate HasElement(es: seq<Element>, name: string)
  {
    exists i :: 0 <= i < |es| && es[i].name == name
  }

  /** The first property of that name, as the inner foreach of InstanceCounter finds it. */
  function FindProperty(ps: seq<Property>, name: string): (r: Option<nat>)
    ensures r.Some? ==> r.value < |ps| && ps[r.value].name == name
    ensures r.Some? ==> forall j :: 0 <= j < r.value ==> ps[j].name != name
    ensures r.None? ==> forall j :: 0 <= j < |ps| ==> ps[j].name != name
    decreases |ps|
  {
    if ps == [] then None
    else if ps[0].name == name then Some(0)
    else
      match FindProperty(ps[1..], name)
      case None => None
      case Some(j) => Some(j + 1)
  }

  /** InstanceCounter: the Size of the first element of that name having a property of that
      name, WrongType if that property's kind is not T, and 0 when there is none. */
  function InstanceCount(es: seq<Element>, ek: string, pk: string, t: ScalarKind): Result<int>
    decreases |es|
  {
    if es == [] then Ok(0)
    else if es[0].name != ek then InstanceCount(es[1..], ek, pk, t)
    else
      match FindProperty(es[0].properties, pk)
      case None => InstanceCount(es[1..], ek, pk, t)
      case Some(j) => if es[0].properties[j].propertyType != t then Err(WrongType) else Ok(es[0].size)
  }

  /** What InstanceCount answers, in terms of the elements and their properties. */
  lemma {:induction false} InstanceCountMeans(es: seq<Element>, ek: string, pk: string, t: ScalarKind)
    ensures var r := InstanceCount(es, ek, pk, t);
      r == Ok(0) <== (forall i, j :: 0 <= i < |es| && 0 <= j < |es[i].properties| && es[i].name == ek ==>
                        es[i].properties[j].name != pk)
    ensures var r := InstanceCount(es, ek, pk, t);
      r.Ok? && r.value != 0 ==>
        exists i, j :: 0 <= i < |es| && 0 <= j < |es[i].properties| && es[i].name == ek &&
          es[i].properties[j].name == pk && es[i].properties[j].propertyType == t && es[i].size == r.value
    ensures var r := InstanceCount(es, ek, pk, t);
      r.Err? ==> (r.error == WrongType &&
        exists i, j :: 0 <= i < |es| && 0 <= j < |es[i].properties| && es[i].name == ek &&
          es[i].properties[j].name == pk && es[i].properties[j].propertyType != t)
    ensures var r := InstanceCount(es, ek, pk, t);
      (forall i, j :: 0 <= i < |es| && 0 <= j < |es[i].properties| && es[i].name == ek &&
         (es[i].properties[j].name == pk ==> es[i].properties[j].propertyType == t)) ==> r.Ok?
    decreases |es|
  {
    if es != [] {
      var j := FindProperty(es[0].properties, pk);
      if es[0].name == ek && j.Some? {
        assert es[0].properties[j.value].name == pk;
      } else {
        InstanceCountMeans(es[1..], ek, pk, t);
        assert forall i :: 1 <= i < |es| ==> es[i] == es[1..][i - 1];
      }
    }
  }

  /** The state of the foreach over the property keys in RequestPropertyFromElement: still
      looping with the instance counts collected so far, or left by `return 0` or a throw. */
  datatype KeyLoop = Looping(table: map<string, nat>, counts: seq<int>) | Exited(table: map<string, nat>, result: Result<int>)

  function BindKey(es: seq<Element>, ek: string, t: ScalarKind, c: nat, st: KeyLoop, key: string): KeyLoop
  {
    if st.Exited? then st
    else
      match InstanceCount(es, ek, key, t)
      case Err(e) => Exited(st.table, Err(e))
      case Ok(n) =>
        if n == 0 then Exited(st.table, Ok(0))
        else
          var userKey := MakeKey(ek, key);
          if userKey in st.table then Exited(st.table, Err(AlreadyRequested))
          else Looping(st.table[userKey := c], st.counts + [n])
  }

  /** The foreach over the keys, as a fold over them: keys are bound one at a time to cursor c,
      so a key that fails leaves the keys before it bound. */
  function BindKeys(es: seq<Element>, ek: string, t: ScalarKind, c: nat, table: map<string, nat>, keys: seq<string>): KeyLoop
    decreases |keys|
  {
    if keys == [] then Looping(table, [])
    else BindKey(es, ek, t, c, BindKeys(es, ek, t, c, table, keys[..|keys| - 1]), keys[|keys| - 1])
  }

  /** What the key loop leaves in the table: no key bound before it is rebound, the keys it
      adds go to cursor c, and a completed loop has bound every key and collected one count
      per key. */
  ghost predicate BindsKeys(ek: string, c: nat, table: map<string, nat>, keys: seq<string>, r: KeyLoop)
  {
    && (forall key :: key in table ==> key in r.table && r.table[key] == table[key])
    && (forall key :: key in r.table && key !in table ==> r.table[key] == c)
    && (r.Looping? ==> |r.counts| == |keys|)
    && (r.Looping? ==> forall i :: 0 <= i < |keys| ==>
          MakeKey(ek, keys[i]) !in table && MakeKey(ek, keys[i]) in r.table && r.table[MakeKey(ek, keys[i])] == c)
  }

  lemma {:induction false} BindKeysTable(es: seq<Element>, ek: string, t: ScalarKind, c: nat, table: map<string, nat>, keys: seq<string>)
    ensures BindsKeys(ek, c, table, keys, BindKeys(es, ek, t, c, table, keys))
    decreases |keys|
  {
    if keys != [] {
      BindKeysTable(es, ek, t, c, table, keys[..|keys| - 1]);
      BindKeysTableStep(es, ek, t, c, table, keys);
    }
  }

  lemma BindKeysTableStep(es: seq<Element>, ek: string, t: ScalarKind, c: nat, table: map<string, nat>, keys: seq<string>)
    requires keys != []
    requires BindsKeys(ek, c, table, keys[..|keys| - 1], BindKeys(es, ek, t, c, table, keys[..|keys| - 1]))
    ensures BindsKeys(ek, c, table, keys, BindKeys(es, ek, t, c, table, keys))
  {
    var ks, key := keys[..|keys| - 1], keys[|keys| - 1];
    var prev := BindKeys(es, ek, t, c, table, ks);
    var r := BindKeys(es, ek, t, c, table, keys);
    assert r == BindKey(es, ek, t, c, prev, key);
    var userKey := MakeKey(ek, key);
    if r.Looping? {
      assert prev.Looping? && userKey !in prev.table && r.table == prev.table[userKey := c];
      assert |r.counts| == |prev.counts| + 1;
      KeepsTable(table, prev.table, c, userKey);
      BindsLastKey(ek, c, table, ks, keys, prev.table, r.table);
    } else {
      assert r.table == prev.table;
    }
  }

  /** Binding one more key to c keeps what was there before the loop. */
  lemma KeepsTable(table: map<string, nat>, prev: map<string, nat>, c: nat, userKey: string)
    requires forall key :: key in table ==> key in prev && prev[key] == table[key]
    requires forall key :: key in prev && key !in table ==> prev[key] == c
    requires userKey !in prev
    ensures forall key :: key in table ==> key in prev[userKey := c] && prev[userKey := c][key] == table[key]
    ensures forall key :: key in prev[userKey := c] && key !in table ==> prev[userKey := c][key] == c
  {
  }

  /** With the keys before the last one bound to c, binding the last one to c binds them all. */
  lemma BindsLastKey(ek: string, c: nat, table: map<string, nat>, ks: seq<string>, keys: seq<string>, prev: map<string, nat>, next: map<string, nat>)
    requires keys != [] && ks == keys[..|keys| - 1]
    requires forall i :: 0 <= i < |ks| ==> MakeKey(ek, ks[i]) !in table && MakeKey(ek, ks[i]) in prev && prev[MakeKey(ek, ks[i])] == c
    requires forall key :: key in table ==> key in prev
    requires MakeKey(ek, keys[|keys| - 1]) !in prev && next == prev[MakeKey(ek, keys[|keys| - 1]) := c]
    ensures forall i :: 0 <= i < |keys| ==>
      MakeKey(ek, keys[i]) !in table && MakeKey(ek, keys[i]) in next && next[MakeKey(ek, keys[i])] == c
  {
    forall i | 0 <= i < |keys|
      ensures MakeKey(ek, keys[i]) !in table && MakeKey(ek, keys[i]) in next && next[MakeKey(ek, keys[i])] == c
    {
      if i < |keys| - 1 {
        assert ks[i] == keys[i];
      }
    }
  }

  /** The key loop binds no key but the ones it is given. */
  lemma {:induction false} BindKeysOnly(es: seq<Element>, ek: string, t: ScalarKind, c: nat, table: map<string, nat>, keys: seq<string>, k: string)
    requires MakeKey(ek, k) !in table && forall i :: 0 <= i < |keys| ==> keys[i] != k
    ensures MakeKey(ek, k) !in BindKeys(es, ek, t, c, table, keys).table
    decreases |keys|
  {
    if keys != [] {
      BindKeysOnly(es, ek, t, c, table, keys[..|keys| - 1], k);
      if MakeKey(ek, keys[|keys| - 1]) == MakeKey(ek, k) {
        MakeKeySuffix(ek, keys[|keys| - 1], k);
      }
    }
  }

  /** Enumerable.Sum with a selector: a checked running sum, so an intermediate overflow throws
      even when the total would fit. */
  function CheckedSum(xs: seq<int>): (r: Option<int>)
    ensures r.Some? ==> Int32Min <= r.value <= Int32Max
    decreases |xs|
  {
    if xs == [] then Some(0)
    else
      match CheckedSum(xs[..|xs| - 1])
      case None => None
      case Some(s) =>
        var s' := s + xs[|xs| - 1];
        if Int32Min <= s' <= Int32Max then Some(s') else None
  }

  function Sum(xs: seq<int>): int
    decreases |xs|
  {
    if xs == [] then 0 else Sum(xs[..|xs| - 1]) + xs[|xs| - 1]
  }

  /** The checked sum is the sum whenever it does not throw, and never throws on counts that
      are all the same size whose total fits. */
  lemma {:induction false} CheckedSumIsSum(xs: seq<int>)
    ensures CheckedSum(xs).Some? ==> CheckedSum(xs).value == Sum(xs)
    ensures (forall i :: 0 <= i < |xs| ==> xs[i] == xs[0]) && Int32Min <= |xs| * (if xs == [] then 0 else xs[0]) <= Int32Max
      ==> CheckedSum(xs) == Some(|xs| * (if xs == [] then 0 else xs[0]))
    decreases |xs|
  {
    if xs != [] {
      var ys := xs[..|xs| - 1];
      CheckedSumIsSum(ys);
      if (forall i :: 0 <= i < |xs| ==> xs[i] == xs[0]) && Int32Min <= |xs| * xs[0] <= Int32Max {
        if ys != [] {
          assert ys[0] == xs[0];
          assert forall i :: 0 <= i < |ys| ==> ys[i] == ys[0];
          MulBetween(|ys|, |xs|, xs[0]);
        }
      }
    }
  }

  lemma MulBetween(a: nat, b: nat, n: int)
    requires 0 < a <= b && Int32Min <= b * n <= Int32Max
    ensures Int32Min <= a * n <= Int32Max
  {
    if n >= 0 {
      assert a * n <= b * n;
    } else {
      assert a * n >= b * n;
    }
  }

  /** C#'s int division, which truncates toward zero. */
  function CsDiv(a: int, b: int): (q: int)
    requires b > 0
    ensures 0 <= a ==> 0 <= a - q * b < b
    ensures a < 0 ==> -b < a - q * b <= 0
  {
    if a >= 0 then a / b else 0 - ((0 - a) / b)
  }

  lemma CsDivExact(k: nat, n: int)
    requires k > 0
    ensures CsDiv(k * n, k) == n
  {
    if n < 0 {
      assert 0 - k * n == k * (0 - n);
      MulDiv(k, 0 - n);
    } else {
      MulDiv(k, n);
    }
  }

  lemma {:induction false} MulDiv(k: nat, m: nat)
    requires k > 0
    ensures (k * m) / k == m
  {
    var q := (k * m) / k;
    var r := (k * m) % k;
    assert k * m == q * k + r && 0 <= r < k;
    if q < m {
      MulMono(q + 1, m, k);
      assert false;
    } else if q > m {
      MulMono(m + 1, q, k);
      assert false;
    }
  }

  lemma MulMono(i: nat, n: nat, k: nat)
    requires i <= n
    ensures i * k <= n * k
  {
  }

  lemma MulSucc(i: nat, k: nat)
    ensures (i + 1) * k == i * k + k
  {
  }

  /** RequestPropertyFromElement<T>(elementKey, keys, data): the return value and the new
      tables. With no elements, or no element of that name, nothing changes and 0 is returned. */
  function Request<V>(es: seq<Element>, st: Tables<V>, ek: string, keys: seq<string>, t: ScalarKind, data: seq<V>): (r: (Result<int>, Tables<V>))
    ensures Extends(st, r.1)
    ensures st.Valid() ==> r.1.Valid()
    ensures !HasElement(es, ek) ==> r == (Ok(0), st)
    ensures HasElement(es, ek) ==> ek in r.1.requested && forall x :: x in r.1.requested ==> x in st.requested || x == ek
    ensures forall key :: key in r.1.table && key !in st.table ==> r.1.table[key] == |st.cursors|
  {
    if es == [] || !HasElement(es, ek) then (Ok(0), st)
    else
      var requested := if ek in st.requested then st.requested else st.requested + [ek];
      var c := |st.cursors|;
      var cursors := st.cursors + [Unset];
      BindKeysTable(es, ek, t, c, st.table, keys);
      match BindKeys(es, ek, t, c, st.table, keys)
      case Exited(table, result) => (result, Tables(requested, table, cursors))
      case Looping(table, counts) =>
        match CheckedSum(counts)
        case None => (Err(SumOverflow), Tables(requested, table, cursors))
        case Some(total) =>
          var st' := Tables(requested, table, cursors[c := Flat(t, data)]);
          if |keys| == 0 then (Err(DivideByZero), st') else (Ok(CsDiv(total, |keys|)), st')
  }

  /** The documented use: when every key names a property of kind T of the one element of that
      name, whose Size is not 0, and the keys are not bound yet, every key is bound to one new
      flat cursor holding the data, and the element's Size is returned. */
  lemma RequestReturnsSize<V>(es: seq<Element>, st: Tables<V>, ek: string, keys: seq<string>, t: ScalarKind, data: seq<V>, size: int)
    requires HasElement(es, ek) && |keys| > 0 && size != 0
    requires forall i :: 0 <= i < |keys| ==> InstanceCount(es, ek, keys[i], t) == Ok(size)
    requires forall i :: 0 <= i < |keys| ==> MakeKey(ek, keys[i]) !in st.table
    requires forall i, j :: 0 <= i < j < |keys| ==> keys[i] != keys[j]
    requires Int32Min <= |keys| * size <= Int32Max
    ensures var (res, st') := Request(es, st, ek, keys, t, data);
      && res == Ok(size)
      && |st'.cursors| == |st.cursors| + 1 && st'.cursors[|st.cursors|] == Flat(t, data)
      && (forall i :: 0 <= i < |keys| ==> MakeKey(ek, keys[i]) in st'.table && st'.table[MakeKey(ek, keys[i])] == |st.cursors|)
  {
    var c := |st.cursors|;
    var loop := BindKeys(es, ek, t, c, st.table, keys);
    BindKeysAllBound(es, ek, t, c, st.table, keys, size);
    BindKeysTable(es, ek, t, c, st.table, keys);
    var total := ConstantCountsSum(|keys|, size);
    RequestCompletes(es, st, ek, keys, t, data, loop.table, seq(|keys|, _ => size), total);
  }

  /** Counts that are all the same size, with a total that fits, sum without throwing, and
      the total divided by their number is that size. */
  lemma ConstantCountsSum(n: nat, size: int) returns (total: int)
    requires n > 0 && Int32Min <= n * size <= Int32Max
    ensures CheckedSum(seq(n, _ => size)) == Some(total) && CsDiv(total, n) == size
  {
    var counts := seq(n, _ => size);
    CheckedSumIsSum(counts);
    assert counts[0] == size;
    total := n * size;
    CsDivExact(n, size);
  }

  /** A key loop that completes and a sum that does not throw: the key's cursor is set to
      the data and the total divided by the number of keys is returned. */
  lemma RequestCompletes<V>(es: seq<Element>, st: Tables<V>, ek: string, keys: seq<string>, t: ScalarKind, data: seq<V>,
                            table: map<string, nat>, counts: seq<int>, total: int)
    requires HasElement(es, ek) && |keys| > 0
    requires BindKeys(es, ek, t, |st.cursors|, st.table, keys) == Looping(table, counts)
    requires CheckedSum(counts) == Some(total)
    ensures Request(es, st, ek, keys, t, data)
         == (Ok(CsDiv(total, |keys|)),
             Tables(if ek in st.requested then st.requested else st.requested + [ek], table,
                    (st.cursors + [Unset])[|st.cursors| := Flat(t, data)]))
  {
  }

  lemma {:induction false} BindKeysAllBound(es: seq<Element>, ek: string, t: ScalarKind, c: nat, table: map<string, nat>, keys: seq<string>, size: int)
    requires size != 0
    requires forall i :: 0 <= i < |keys| ==> InstanceCount(es, ek, keys[i], t) == Ok(size)
    requires forall i :: 0 <= i < |keys| ==> MakeKey(ek, keys[i]) !in table
    requires forall i, j :: 0 <= i < j < |keys| ==> keys[i] != keys[j]
    ensures BindKeys(es, ek, t, c, table, keys) == Looping(BindKeys(es, ek, t, c, table, keys).table, seq(|keys|, _ => size))
    decreases |keys|
  {
    if keys != [] {
      var ks := keys[..|keys| - 1];
      var key := keys[|keys| - 1];
      BindKeysAllBound(es, ek, t, c, table, ks, size);
      BindKeysOnly(es, ek, t, c, table, ks, key);
      assert seq(|ks|, _ => size) + [size] == seq(|keys|, _ => size);
    }
  }

  lemma MakeKeySuffix(a: string, b1: string, b2: string)
    requires MakeKey(a, b1) == MakeKey(a, b2)
    ensures b1 == b2
  {
    assert MakeKey(a, b1)[|a| + 1..] == b1;
  }

  /** The quirk of the early `return 0`: when key i is missing (or its element has Size 0) and
      the keys before it were bound, 0 is returned, those keys stay bound, and their cursor's
      vector is never set, so it stays null. */
  lemma RequestLeavesPartialBindings<V>(es: seq<Element>, st: Tables<V>, ek: string, keys: seq<string>, t: ScalarKind, data: seq<V>, i: nat)
    requires HasElement(es, ek) && i < |keys|
    requires BindKeys(es, ek, t, |st.cursors|, st.table, keys[..i]).Looping?
    requires InstanceCount(es, ek, keys[i], t) == Ok(0)
    ensures var (res, st') := Request(es, st, ek, keys, t, data);
      && res == Ok(0)
      && |st'.cursors| == |st.cursors| + 1 && st'.cursors[|st.cursors|] == Unset
      && (forall j :: 0 <= j < i ==> MakeKey(ek, keys[j]) in st'.table && st'.table[MakeKey(ek, keys[j])] == |st.cursors|)
  {
    var c := |st.cursors|;
    var loopI := BindKeys(es, ek, t, c, st.table, keys[..i]);
    BindKeysStopsAt(es, ek, t, c, st.table, keys, i);
    BindKeysTable(es, ek, t, c, st.table, keys[..i]);
    assert forall j :: 0 <= j < i ==> keys[..i][j] == keys[j];
  }

  /** The two throws of the key loop. At the first key i whose property is not of kind T, or
      whose key is already bound (by an earlier call, or earlier in this same call), the call
      throws WrongType or AlreadyRequested: the keys before i stay bound to the new cursor,
      whose vector stays null, and no later key is bound. */
  lemma RequestThrowsAt<V>(es: seq<Element>, st: Tables<V>, ek: string, keys: seq<string>, t: ScalarKind, data: seq<V>, i: nat)
    requires HasElement(es, ek) && i < |keys|
    requires BindKeys(es, ek, t, |st.cursors|, st.table, keys[..i]).Looping?
    requires || InstanceCount(es, ek, keys[i], t).Err?
             || (&& InstanceCount(es, ek, keys[i], t).Ok? && InstanceCount(es, ek, keys[i], t).value != 0
                 && (MakeKey(ek, keys[i]) in st.table || keys[i] in keys[..i]))
    ensures var (res, st') := Request(es, st, ek, keys, t, data);
      && res == (if InstanceCount(es, ek, keys[i], t).Err? then Err(WrongType) else Err(AlreadyRequested))
      && |st'.cursors| == |st.cursors| + 1 && st'.cursors[|st.cursors|] == Unset
      && st'.table == BindKeys(es, ek, t, |st.cursors|, st.table, keys[..i]).table
      && (forall j :: 0 <= j < i ==> MakeKey(ek, keys[j]) in st'.table && st'.table[MakeKey(ek, keys[j])] == |st.cursors|)
  {
    var c := |st.cursors|;
    var loopI := BindKeys(es, ek, t, c, st.table, keys[..i]);
    BindKeysTable(es, ek, t, c, st.table, keys[..i]);
    InstanceCountMeans(es, ek, keys[i], t);
    if InstanceCount(es, ek, keys[i], t).Ok? && MakeKey(ek, keys[i]) !in st.table {
      var j :| 0 <= j < i && keys[..i][j] == keys[i];
      assert MakeKey(ek, keys[..i][j]) in loopI.table;
    }
    BindKeysStep(es, ek, t, c, st.table, keys, i, BindKey(es, ek, t, c, loopI, keys[i]));
    assert forall j :: 0 <= j < i ==> keys[..i][j] == keys[j];
  }

  /** A key whose count is 0, reached while looping, leaves the loop with `return 0`, and the
      keys after it are not looked at. */
  lemma BindKeysStopsAt(es: seq<Element>, ek: string, t: ScalarKind, c: nat, table: map<string, nat>, keys: seq<string>, i: nat)
    requires i < |keys|
    requires BindKeys(es, ek, t, c, table, keys[..i]).Looping?
    requires InstanceCount(es, ek, keys[i], t) == Ok(0)
    ensures BindKeys(es, ek, t, c, table, keys) == Exited(BindKeys(es, ek, t, c, table, keys[..i]).table, Ok(0))
  {
    assert keys[..i + 1][..i] == keys[..i];
    BindKeysExitedSticky(es, ek, t, c, table, keys, i + 1);
    assert keys[..|keys|] == keys;
  }

  /** The key loop one key further. */
  lemma BindKeysSnoc(es: seq<Element>, ek: string, t: ScalarKind, c: nat, table: map<string, nat>, keys: seq<string>, i: nat)
    requires i < |keys|
    ensures BindKeys(es, ek, t, c, table, keys[..i + 1]) == BindKey(es, ek, t, c, BindKeys(es, ek, t, c, table, keys[..i]), keys[i])
  {
    assert keys[..i + 1][..i] == keys[..i];
  }

  /** One pass of the key loop: either the loop goes on over one key more, or it has been left
      and its outcome is final. */
  lemma BindKeysStep(es: seq<Element>, ek: string, t: ScalarKind, c: nat, table: map<string, nat>, keys: seq<string>, i: nat, st: KeyLoop)
    requires i < |keys| && st == BindKey(es, ek, t, c, BindKeys(es, ek, t, c, table, keys[..i]), keys[i])
    ensures st.Looping? ==> BindKeys(es, ek, t, c, table, keys[..i + 1]) == st
    ensures st.Exited? ==> BindKeys(es, ek, t, c, table, keys) == st
  {
    BindKeysSnoc(es, ek, t, c, table, keys, i);
    if st.Exited? {
      BindKeysExitedSticky(es, ek, t, c, table, keys, i + 1);
    }
  }

  /** Once the key loop has been left, the later keys are not looked at. */
  lemma {:induction false} BindKeysExitedSticky(es: seq<Element>, ek: string, t: ScalarKind, c: nat, table: map<string, nat>, keys: seq<string>, i: nat)
    requires i <= |keys| && BindKeys(es, ek, t, c, table, keys[..i]).Exited?
    ensures BindKeys(es, ek, t, c, table, keys) == BindKeys(es, ek, t, c, table, keys[..i])
    decreases |keys| - i
  {
    if i < |keys| {
      assert keys[..i + 1][..i] == keys[..i];
      BindKeysExitedSticky(es, ek, t, c, table, keys, i + 1);
    } else {
      assert keys[..i] == keys;
    }
  }

  /** RequestListPropertyFromElement<T>(elementKey, propertyKey, data): neither the property's
      existence nor its kind is checked; the key is bound to a new multivector cursor. */
  function RequestList<V>(es: seq<Element>, st: Tables<V>, ek: string, pk: string, t: ScalarKind, data: seq<seq<V>>): (r: (Option<PlyError>, Tables<V>))
    ensures Extends(st, r.1)
    ensures st.Valid() ==> r.1.Valid()
    ensures !HasElement(es, ek) ==> r == (None, st)
    ensures HasElement(es, ek) ==> ek in r.1.requested && forall x :: x in r.1.requested ==> x in st.requested || x == ek
    ensures HasElement(es, ek) ==> (r.0.None? <==> MakeKey(ek, pk) !in st.table)
    ensures HasElement(es, ek) && r.0.None? ==>
      && |r.1.cursors| == |st.cursors| + 1 && r.1.cursors[|st.cursors|] == Nested(t, data)
      && MakeKey(ek, pk) in r.1.table && r.1.table[MakeKey(ek, pk)] == |st.cursors|
    ensures r.0.Some? ==> r.0.value == AlreadyRequested && r.1.table == st.table
  {
    if es == [] || !HasElement(es, ek) then (None, st)
    else
      var requested := if ek in st.requested then st.requested else st.requested + [ek];
      var c := |st.cursors|;
      var cursors := st.cursors + [Unset];
      var userKey := MakeKey(ek, pk);
      if userKey in st.table then (Some(AlreadyRequested), Tables(requested, st.table, cursors))
      else (None, Tables(requested, st.table[userKey := c], cursors[c := Nested(t, data)]))
  }

  /** The loop of AddPropertiesToElement over the keys: (table, exception). */
  function AddKeys(ek: string, c: nat, table: map<string, nat>, keys: seq<string>): (r: (map<string, nat>, Option<PlyError>))
    ensures forall key :: key in table ==> key in r.0 && r.0[key] == table[key]
    ensures forall key :: key in r.0 && key !in table ==> r.0[key] == c
    ensures r.1.None? ==> forall i :: 0 <= i < |keys| ==> MakeKey(ek, keys[i]) in r.0
    ensures r.1.Some? ==> r.1.value == AlreadyRequested
    decreases |keys|
  {
    if keys == [] then (table, None)
    else
      var (tb, failure) := AddKeys(ek, c, table, keys[..|keys| - 1]);
      if failure.Some? then (tb, failure)
      else if MakeKey(ek, keys[|keys| - 1]) in tb then (tb, Some(AlreadyRequested))
      else (tb[MakeKey(ek, keys[|keys| - 1]) := c], None)
  }

  /** No key is bound yet and none is repeated. */
  ghost predicate FreshKeys(ek: string, table: map<string, nat>, keys: seq<string>)
  {
    && (forall i :: 0 <= i < |keys| ==> MakeKey(ek, keys[i]) !in table)
    && (forall i, j :: 0 <= i < j < |keys| ==> keys[i] != keys[j])
  }

  /** AddKeys binds no key but the ones it is given. */
  lemma {:induction false} AddKeysOnly(ek: string, c: nat, table: map<string, nat>, keys: seq<string>, k: string)
    requires MakeKey(ek, k) !in table && forall i :: 0 <= i < |keys| ==> keys[i] != k
    ensures MakeKey(ek, k) !in AddKeys(ek, c, table, keys).0
    decreases |keys|
  {
    if keys != [] {
      AddKeysOnly(ek, c, table, keys[..|keys| - 1], k);
      if MakeKey(ek, keys[|keys| - 1]) == MakeKey(ek, k) {
        MakeKeySuffix(ek, keys[|keys| - 1], k);
      }
    }
  }

  /** The key loop gets through exactly when no key is bound already and none is repeated. */
  lemma {:induction false} AddKeysSucceeds(ek: string, c: nat, table: map<string, nat>, keys: seq<string>)
    ensures AddKeys(ek, c, table, keys).1.None? <==> FreshKeys(ek, table, keys)
    decreases |keys|
  {
    if keys != [] {
      var ks := keys[..|keys| - 1];
      AddKeysSucceeds(ek, c, table, ks);
      FreshKeysSnoc(ek, table, keys);
      AddKeysLast(ek, c, table, keys);
      if AddKeys(ek, c, table, ks).1.None? {
        AddKeysLastFresh(ek, c, table, ks, keys[|keys| - 1]);
      }
    }
  }

  lemma FreshKeysSnoc(ek: string, table: map<string, nat>, keys: seq<string>)
    requires keys != []
    ensures var ks, key := keys[..|keys| - 1], keys[|keys| - 1];
      FreshKeys(ek, table, keys) <==>
        FreshKeys(ek, table, ks) && MakeKey(ek, key) !in table && forall i :: 0 <= i < |ks| ==> ks[i] != key
  {
    var ks, key := keys[..|keys| - 1], keys[|keys| - 1];
    if FreshKeys(ek, table, ks) && MakeKey(ek, key) !in table && forall i :: 0 <= i < |ks| ==> ks[i] != key {
      forall i, j | 0 <= i < j < |keys|
        ensures keys[i] != keys[j]
      {
        assert keys[i] == ks[i];
        if j < |ks| {
          assert keys[j] == ks[j];
        }
      }
    }
    if FreshKeys(ek, table, keys) {
      forall i | 0 <= i < |ks|
        ensures ks[i] != key
      {
        assert keys[i] == ks[i];
      }
    }
  }

  lemma AddKeysLast(ek: string, c: nat, table: map<string, nat>, keys: seq<string>)
    requires keys != []
    ensures var prev := AddKeys(ek, c, table, keys[..|keys| - 1]);
      AddKeys(ek, c, table, keys).1.None? <==> prev.1.None? && MakeKey(ek, keys[|keys| - 1]) !in prev.0
  {
  }

  lemma AddKeysLastFresh(ek: string, c: nat, table: map<string, nat>, ks: seq<string>, key: string)
    requires AddKeys(ek, c, table, ks).1.None?
    ensures MakeKey(ek, key) !in AddKeys(ek, c, table, ks).0
        <==> MakeKey(ek, key) !in table && forall i :: 0 <= i < |ks| ==> ks[i] != key
  {
    if MakeKey(ek, key) !in table && forall i :: 0 <= i < |ks| ==> ks[i] != key {
      AddKeysOnly(ek, c, table, ks, key);
    }
  }

  /** One more key of the loop: the loop stops at a key already bound, otherwise binds it. */
  lemma AddKeysNext(ek: string, c: nat, table: map<string, nat>, keys: seq<string>, i: nat)
    requires i < |keys|
    ensures var prev := AddKeys(ek, c, table, keys[..i]);
      AddKeys(ek, c, table, keys[..i + 1])
        == if prev.1.Some? then prev
           else if MakeKey(ek, keys[i]) in prev.0 then (prev.0, Some(AlreadyRequested))
           else (prev.0[MakeKey(ek, keys[i]) := c], None)
  {
    TakeOneMore(keys, i);
  }

  /** Once a key has been found bound, the later keys are not looked at. */
  lemma {:induction false} AddKeysFailedSticky(ek: string, c: nat, table: map<string, nat>, keys: seq<string>, i: nat)
    requires i <= |keys| && AddKeys(ek, c, table, keys[..i]).1.Some?
    ensures AddKeys(ek, c, table, keys) == AddKeys(ek, c, table, keys[..i])
    decreases |keys| - i
  {
    if i < |keys| {
      assert keys[..i + 1][..i] == keys[..i];
      AddKeysFailedSticky(ek, c, table, keys, i + 1);
    } else {
      assert keys[..i] == keys;
    }
  }

  /** One non-list property of kind T per key, in order. */
  function ScalarProperties(t: ScalarKind, keys: seq<string>): (ps: seq<Property>)
    ensures |ps| == |keys| && forall i :: 0 <= i < |keys| ==> ps[i] == ScalarProperty(t, keys[i])
  {
    seq(|keys|, i requires 0 <= i < |keys| => ScalarProperty(t, keys[i]))
  }

  lemma ScalarPropertiesSnoc(t: ScalarKind, keys: seq<string>, i: nat)
    requires i < |keys|
    ensures ScalarProperties(t, keys[..i + 1]) == ScalarProperties(t, keys[..i]) + [ScalarProperty(t, keys[i])]
  {
  }

  /** AddPropertiesToElement<T>(elementKey, keys, data): (exception, elements, tables). It
      succeeds exactly when no element has that name, there is at least one key, and no key is
      bound yet or repeated; then one element is appended with Size = |data| / |keys| and one
      scalar property per key, and every key is bound to one flat cursor holding the data. */
  function AddProperties<V>(es: seq<Element>, st: Tables<V>, ek: string, keys: seq<string>, t: ScalarKind, data: seq<V>): (r: (Option<PlyError>, seq<Element>, Tables<V>))
    ensures Extends(st, r.2) && r.2.requested == st.requested
    ensures st.Valid() ==> r.2.Valid()
    ensures HasElement(es, ek) ==> r == (Some(ElementExists), es, st)
    ensures r.0.None? <==> !HasElement(es, ek) && |keys| > 0 && FreshKeys(ek, st.table, keys)
    ensures !HasElement(es, ek) && |keys| == 0 ==> r.0 == Some(DivideByZero)
    ensures !HasElement(es, ek) && |keys| > 0 && !FreshKeys(ek, st.table, keys) ==> r.0 == Some(AlreadyRequested)
    ensures r.0.Some? ==> r.1 == es
    ensures r.0.None? ==>
      && r.1 == es + [Element(ek, |data| / |keys|, ScalarProperties(t, keys))]
      && |r.2.cursors| == |st.cursors| + 1 && r.2.cursors[|st.cursors|] == Flat(t, data)
      && (forall i :: 0 <= i < |keys| ==> MakeKey(ek, keys[i]) in r.2.table && r.2.table[MakeKey(ek, keys[i])] == |st.cursors|)
  {
    if HasElement(es, ek) then (Some(ElementExists), es, st)
    else
      var c := |st.cursors|;
      var cursors := st.cursors + [Unset];
      if |keys| == 0 then (Some(DivideByZero), es, st.(cursors := cursors))
      else
        var e := NamedElement(ek).(size := |data| / |keys|, properties := ScalarProperties(t, keys));
        var (table, failure) := AddKeys(ek, c, st.table, keys);
        AddKeysSucceeds(ek, c, st.table, keys);
        if failure.Some? then (failure, es, Tables(st.requested, table, cursors))
        else (None, es + [e], Tables(st.requested, table, cursors[c := Flat(t, data)]))
  }

  /** The unit test that calls AddPropertiesToElement three times for "vertex" expects the
      calls to merge; as written, every call after the first throws and changes nothing. */
  lemma AddPropertiesTwiceThrows<V>(es: seq<Element>, st: Tables<V>, ek: string, keys1: seq<string>, keys2: seq<string>, t1: ScalarKind, t2: ScalarKind, d1: seq<V>, d2: seq<V>)
    requires AddProperties(es, st, ek, keys1, t1, d1).0.None?
    ensures var (_, es1, st1) := AddProperties(es, st, ek, keys1, t1, d1);
      AddProperties(es1, st1, ek, keys2, t2, d2) == (Some(ElementExists), es1, st1)
  {
    var es1 := AddProperties(es, st, ek, keys1, t1, d1).1;
    assert es1[|es|].name == ek;
  }

  /** AddListPropertyToElement<T>(elementKey, propertyKey, data, listCountType): one element
      with Size = |data| and a single list property, its key bound to a multivector cursor. */
  function AddList<V>(es: seq<Element>, st: Tables<V>, ek: string, pk: string, t: ScalarKind, data: seq<seq<V>>, countType: ScalarKind): (r: (Option<PlyError>, seq<Element>, Tables<V>))
    ensures Extends(st, r.2) && r.2.requested == st.requested
    ensures st.Valid() ==> r.2.Valid()
    ensures HasElement(es, ek) ==> r == (Some(ElementExists), es, st)
    ensures r.0.None? <==> !HasElement(es, ek) && MakeKey(ek, pk) !in st.table
    ensures !HasElement(es, ek) && MakeKey(ek, pk) in st.table ==> r.0 == Some(AlreadyRequested)
    ensures r.0.Some? ==> r.1 == es && r.2.table == st.table
    ensures r.0.None? ==>
      && r.1 == es + [Element(ek, |data|, [ListProperty(countType, t, pk)])]
      && |r.2.cursors| == |st.cursors| + 1 && r.2.cursors[|st.cursors|] == Nested(t, data)
      && MakeKey(ek, pk) in r.2.table && r.2.table[MakeKey(ek, pk)] == |st.cursors|
  {
    if HasElement(es, ek) then (Some(ElementExists), es, st)
    else
      var c := |st.cursors|;
      var cursors := st.cursors + [Unset];
      var e := NamedElement(ek).(size := |data|, properties := [ListProperty(countType, t, pk)]);
      var userKey := MakeKey(ek, pk);
      if userKey in st.table then (Some(AlreadyRequested), es, Tables(st.requested, st.table, cursors))
      else (None, es + [e], Tables(st.requested, st.table[userKey := c], cursors[c := Nested(t, data)]))
  }

  /** The layout RequestPropertyFromElement sets up: every property of the element is a
      scalar of kind t bound to the one flat cursor c. */
  ghost predicate FlatLayout(table: map<string, nat>, e: Element, t: ScalarKind, c: nat)
  {
    forall p :: p in e.properties ==>
      !p.IsList() && p.propertyType == t && MakeKey(e.name, p.name) in table && table[MakeKey(e.name, p.name)] == c
  }

  /** The layout RequestListPropertyFromElement sets up for a one-property element: the list
      property is bound to a multivector cursor of its item type. */
  ghost predicate ListLayout(table: map<string, nat>, e: Element, c: nat)
  {
    && |e.properties| == 1 && e.properties[0].IsList()
    && MakeKey(e.name, e.properties[0].name) in table && table[MakeKey(e.name, e.properties[0].name)] == c
  }

  /** The element AddPropertiesToElement appends is laid out flat over its new cursor. */
  lemma AddPropertiesLayout<V>(es: seq<Element>, st: Tables<V>, ek: string, keys: seq<string>, t: ScalarKind, data: seq<V>)
    requires AddProperties(es, st, ek, keys, t, data).0.None?
    ensures var (_, es', st') := AddProperties(es, st, ek, keys, t, data);
      && |es'| == |es| + 1 && FlatLayout(st'.table, es'[|es|], t, |st.cursors|)
      && |es'[|es|].properties| == |keys| && Rows(es'[|es|]) == |data| / |keys|
      && |st.cursors| < |st'.cursors| && st'.cursors[|st.cursors|] == Flat(t, data)
  {
    var (_, es', st') := AddProperties(es, st, ek, keys, t, data);
    var e := es'[|es|];
    forall p | p in e.properties
      ensures !p.IsList() && p.propertyType == t && MakeKey(e.name, p.name) in st'.table && st'.table[MakeKey(e.name, p.name)] == |st.cursors|
    {
      var i :| 0 <= i < |e.properties| && e.properties[i] == p;
      assert p == ScalarProperty(t, keys[i]);
    }
  }

  /** The element AddListPropertyToElement appends is laid out as one list over its new cursor. */
  lemma AddListLayout<V>(es: seq<Element>, st: Tables<V>, ek: string, pk: string, t: ScalarKind, data: seq<seq<V>>, countType: ScalarKind)
    requires AddList(es, st, ek, pk, t, data, countType).0.None?
    ensures var (_, es', st') := AddList(es, st, ek, pk, t, data, countType);
      && |es'| == |es| + 1 && ListLayout(st'.table, es'[|es|], |st.cursors|) && Rows(es'[|es|]) == |data|
      && |st.cursors| < |st'.cursors| && st'.cursors[|st.cursors|] == Nested(t, data)
  {
  }
}
