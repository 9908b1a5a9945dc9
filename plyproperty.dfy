/** PlyProperty.cs: one property of an element, as parsed from a `property` header line or
    built for writing. */
module PlyProperty {
  import opened Outcomes
  import opened PlyTypes
  import opened StreamHelper

  /** A property: its name, its value kind and, for a list property, the kind of the count
      that precedes the items. IsList is set exactly when ListType is, so one Option holds
      both. ListCount is never given a value other than 0. */
  datatype Property = Property(name: string, propertyType: ScalarKind, listType: Option<ScalarKind>, listCount: int)
  {
    predicate IsList() { listType.Some? }
  }

  /** The scalar constructor PlyProperty(Type, string). */
  function ScalarProperty(t: ScalarKind, name: string): (p: Property)
    ensures !p.IsList() && p.propertyType == t && p.name == name && p.listCount == 0
  {
    Property(name, t, None, 0)
  }

  /** The list constructor PlyProperty(listType, propType, name, ...): its `ListCount = ListCount`
      assigns the property to itself, so the count stays 0 whatever is passed. */
  function ListProperty(c: ScalarKind, t: ScalarKind, name: string): (p: Property)
    ensures p.IsList() && p.listType == Some(c) && p.propertyType == t && p.name == name
    ensures p.listCount == 0
  {
    Property(name, t, Some(c), 0)
  }

  /** parseInternal on the unread rest of a header line: the property (or the exception) and
      the text left unread. `list` reads the count and item tokens first, then resolves the count
      token before the item token; the name is read last. */
  function PropertyFromText(s: string): (Result<Property>, string)
  {
    var (t, s1) := NextWord(s);
    if t == "list" then
      var (c, s2) := NextWord(s1);
      var (item, s3) := NextWord(s2);
      match PropertyTypeFromString(c)
      case Err(e) => (Err(e), s3)
      case Ok(ck) =>
        match PropertyTypeFromString(item)
        case Err(e) => (Err(e), s3)
        case Ok(tk) =>
          var (name, s4) := NextWord(s3);
          (Ok(ListProperty(ck, tk, name)), s4)
    else
      match PropertyTypeFromString(t)
      case Err(e) => (Err(e), s1)
      case Ok(tk) =>
        var (name, s2) := NextWord(s1);
        (Ok(ScalarProperty(tk, name)), s2)
  }

  /** The parse stated on the line's tokens: `list <c> <t> <n>` gives a list property with
      count kind c and item kind t, `<t> <n>` a scalar property of kind t; an unknown type token
      fails with NotSupportedException; on success exactly 4 (list) or 2 (scalar) tokens are
      consumed and the ones after them are left unread. */
  lemma PropertyFromTextWords(s: string)
    ensures var ws := Words(s); var (r, rest) := PropertyFromText(s);
      && (Nth(ws, 0) == "list" ==>
           && (r.Ok? <==> PropertyTypeFromString(Nth(ws, 1)).Ok? && PropertyTypeFromString(Nth(ws, 2)).Ok?)
           && (r.Ok? ==>
                 && r.value == ListProperty(PropertyTypeFromString(Nth(ws, 1)).value,
                                            PropertyTypeFromString(Nth(ws, 2)).value, Nth(ws, 3))
                 && Words(rest) == Drop(ws, 4)))
      && (Nth(ws, 0) != "list" ==>
           && (r.Ok? <==> PropertyTypeFromString(Nth(ws, 0)).Ok?)
           && (r.Ok? ==>
                 && r.value == ScalarProperty(PropertyTypeFromString(Nth(ws, 0)).value, Nth(ws, 1))
                 && Words(rest) == Drop(ws, 2)))
      && (r.Err? ==> r.error == UnsupportedType)
  {
    var ws := Words(s);
    var (t, s1) := NextWord(s);
    NextWordStep(s);
    var (c, s2) := NextWord(s1);
    NextWordStep(s1);
    var (item, s3) := NextWord(s2);
    NextWordStep(s2);
    var (name, s4) := NextWord(s3);
    NextWordStep(s3);
    assert Nth(Words(s1), 0) == Nth(ws, 1) && Nth(Words(s2), 0) == Nth(ws, 2) && Nth(Words(s3), 0) == Nth(ws, 3);
    assert Words(s4) == Drop(ws, 4) && Words(s2) == Drop(ws, 2);
  }

  /** A scalar line whose type token is none of the sixteen accepted ones fails. */
  lemma RejectsUnknownType(t: string, name: string)
    requires t != [] && NoWhiteSpace(t) && t != "list" && t !in AcceptedTokens
    ensures PropertyFromText(t + " " + name).0 == Err(UnsupportedType)
  {
    NextWordOfSpaced(t, name);
    AcceptsExactlySixteenTokens(t);
  }

  /** parseInternal on a header line reader: the words are pulled one by one. */
  method ParseProperty(ls: TextReader) returns (r: Result<Property>)
    requires ls.Valid()
    modifies ls
    ensures ls.Valid()
    ensures (r, ls.Rest()) == PropertyFromText(old(ls.Rest()))
  {
    var t := ls.ReadWord();
    var listType: Option<ScalarKind> := None;
    if t == "list" {
      var countType := ls.ReadWord();
      t := ls.ReadWord();
      var c := PropertyTypeFromString(countType);
      if c.Err? {
        return Err(c.error);
      }
      listType := Some(c.value);
    }
    var k := PropertyTypeFromString(t);
    if k.Err? {
      return Err(k.error);
    }
    var name := ls.ReadWord();
    r := Ok(Property(name, k.value, listType, 0));
  }
}
