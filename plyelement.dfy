/** PlyElement.cs: one element of the schema, as parsed from an `element` header line or
    created by name for writing. */
module PlyElement {
  import opened Outcomes
  import opened Decimal
  import opened StreamHelper
  import opened PlyProperty

  /** An element: its name, its row count (a 32-bit int, which the parser lets be negative)
      and its properties in header order. */
  datatype Element = Element(name: string, size: int, properties: seq<Property>)

  /** The by-name constructor PlyElement(string). */
  function NamedElement(name: string): (e: Element)
    ensures e.name == name && e.size == 0 && e.properties == []
  {
    Element(name, 0, [])
  }

  /** The number of rows the read and write loops visit: `count < Size` with the counter
      starting at 0, so none for a negative Size. */
  function Rows(e: Element): (n: nat)
    ensures e.size >= 0 ==> n == e.size
    ensures e.size < 0 ==> n == 0
  {
    if e.size > 0 then e.size else 0
  }

  /** ParseInternal on the unread rest of an `element` line: the name word, then int.Parse of
      the next word (FormatException or OverflowException when it is not a 32-bit integer). */
  function ElementFromText(s: string): (Result<Element>, string)
  {
    var (name, s1) := NextWord(s);
    var (count, s2) := NextWord(s1);
    match ParseInt32(count)
    case None => (Err(BadElementCount), s2)
    case Some(n) => (Ok(Element(name, n, [])), s2)
  }

  /** The parse stated on the line's tokens: the first is the name, the second the count; the
      element starts without properties, fails exactly when the count is not a 32-bit integer,
      and two tokens are consumed either way. */
  lemma ElementFromTextWords(s: string)
    ensures var ws := Words(s); var (r, rest) := ElementFromText(s);
      && (r.Ok? <==> ParseInt32(Nth(ws, 1)).Some?)
      && (r.Ok? ==> r.value == Element(Nth(ws, 0), ParseInt32(Nth(ws, 1)).value, []))
      && (r.Err? ==> r.error == BadElementCount)
      && Words(rest) == Drop(ws, 2)
  {
    var (name, s1) := NextWord(s);
    NextWordStep(s);
    var (count, s2) := NextWord(s1);
    NextWordStep(s1);
    assert Nth(Words(s1), 0) == Nth(Words(s), 1);
  }

  /** int.Parse accepts a negative count, and such an element has no rows. */
  lemma NegativeCountAccepted()
    ensures ParseInt32("-5") == Some(-5)
    ensures Rows(Element("vertex", -5, [])) == 0
  {
    ParseIntToString(-5);
    assert IntToString(-5) == "-5";
  }

  /** ParseInternal on a header line reader. */
  method ParseElement(ls: TextReader) returns (r: Result<Element>)
    requires ls.Valid()
    modifies ls
    ensures ls.Valid()
    ensures (r, ls.Rest()) == ElementFromText(old(ls.Rest()))
  {
    var name := ls.ReadWord();
    var count := ls.ReadWord();
    var size := ParseInt32(count);
    if size.None? {
      return Err(BadElementCount);
    }
    r := Ok(Element(name, size.value, []));
  }
}
