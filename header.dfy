/** The PLY header as PlyFile.ParseHeader reads it and PlyFile.WriteHeader writes it: the
    schema (elements with their properties, in header order), the comment and obj_info lines
    and the format flag. */
module PlyHeader {
  import opened Outcomes
  import opened PlyTypes
  import opened Decimal
  import opened StreamHelper
  import opened PlyProperty
  import opened PlyElement

  /** The header fields of a PlyFile. */
  datatype Header = Header(elements: seq<Element>, comments: seq<string>, objInfo: seq<string>, isBinary: bool)

  /** The fields as both PlyFile constructors set them. */
  const EmptyHeader: Header := Header([], [], [], false)

  /** Where ParseHeader stands: still reading lines, stopped at end_header, or stopped by an
      exception (with the fields as the exception left them). */
  datatype Progress = Reading(h: Header) | Done(h: Header) | Failed(h: Header, error: PlyError)

  /** The `property` line: Elements.Last() is taken before the property is parsed. */
  function AddToLast(es: seq<Element>, p: Property): (r: seq<Element>)
    requires es != []
    ensures |r| == |es| && r[..|es| - 1] == es[..|es| - 1]
    ensures r[|es| - 1] == es[|es| - 1].(properties := es[|es| - 1].properties + [p])
  {
    var last := es[|es| - 1];
    es[..|es| - 1] + [last.(properties := last.properties + [p])]
  }

  /** One pass of ParseHeader's loop body on a header line. */
  function HeaderLine(line: string, h: Header): Progress
  {
    var (token, rest) := NextWord(line);
    Directive(token, rest, h)
  }

  /** The dispatch on the first word of a line; rest is what the line reader has left. */
  function Directive(token: string, rest: string, h: Header): Progress
  {
    if token == "ply" || token == "PLY" || token == "" then Reading(h)
    else if token == "comment" then Reading(h.(comments := h.comments + [RestOfLine(rest)]))
    else if token == "format" then FormatDirective(rest, h)
    else if token == "element" then ElementDirective(rest, h)
    else if token == "property" then PropertyDirective(rest, h)
    else if token == "obj_info" then Reading(h.(objInfo := h.objInfo + [RestOfLine(rest)]))
    else if token == "end_header" then Done(h)
    else Failed(h, InvalidHeader)
  }

  /** `format`: only its next word is looked at. */
  function FormatDirective(rest: string, h: Header): Progress
  {
    var s := NextWord(rest).0;
    if s == "binary_little_endian" then Reading(h.(isBinary := true))
    else if s == "binary_big_endian" then Failed(h, BigEndianNotSupported)
    else Reading(h)
  }

  /** `element`: a new element at the end. */
  function ElementDirective(rest: string, h: Header): Progress
  {
    match ElementFromText(rest).0
    case Err(e) => Failed(h, e)
    case Ok(e) => Reading(h.(elements := h.elements + [e]))
  }

  /** `property`: Elements.Last() is taken before the property is parsed. */
  function PropertyDirective(rest: string, h: Header): Progress
  {
    if h.elements == [] then Failed(h, NoCurrentElement)
    else
      match PropertyFromText(rest).0
      case Err(e) => Failed(h, e)
      case Ok(p) => Reading(h.(elements := AddToLast(h.elements, p)))
  }

  /** The exception a stopped header parse reports, if any. */
  function Outcome(p: Progress): Option<PlyError>
  {
    if p.Failed? then Some(p.error) else None
  }

  function Step(p: Progress, line: string): Progress
  {
    if p.Reading? then HeaderLine(line, p.h) else p
  }

  /** The loop over the lines: once stopped, later lines are not looked at. */
  function Run(lines: seq<string>, p: Progress): Progress
    decreases |lines|
  {
    if lines == [] then p else Run(lines[1..], Step(p, lines[0]))
  }

  /** ParseHeader on the header's lines. The source keeps reading empty lines once the stream
      has ended, so a header without end_header never returns; the model reports it. */
  function ParseHeaderLines(lines: seq<string>, h: Header): Progress
  {
    var p := Run(lines, Reading(h));
    if p.Reading? then Failed(p.h, HeaderNotTerminated) else p
  }

  lemma {:induction false} RunAppend(a: seq<string>, b: seq<string>, p: Progress)
    ensures Run(a + b, p) == Run(b, Run(a, p))
    decreases |a|
  {
    if a == [] {
      assert a + b == b;
    } else {
      assert (a + b)[0] == a[0] && (a + b)[1..] == a[1..] + b;
      RunAppend(a[1..], b, Step(p, a[0]));
    }
  }

  /** Running a then b: what a leads to, then what b leads to from there. */
  lemma RunThen(a: seq<string>, b: seq<string>, p: Progress, q: Progress, r: Progress)
    requires Run(a, p) == q && Run(b, q) == r
    ensures Run(a + b, p) == r
  {
    RunAppend(a, b, p);
  }

  lemma RunOne(line: string, p: Progress)
    ensures Run([line], p) == Step(p, line)
  {
    assert [line][1..] == [];
  }

  lemma {:induction false} RunStopped(lines: seq<string>, p: Progress)
    requires !p.Reading?
    ensures Run(lines, p) == p
    decreases |lines|
  {
    if lines != [] {
      RunStopped(lines[1..], p);
    }
  }

  /** What each kind of line does, stated on the line's tokens: lines whose first token is
      ply, PLY or missing change nothing; end_header stops; an unknown first token throws;
      format looks only at its second token; an element line appends one element named by the
      second token; a property line fails before any element and otherwise extends the last
      element only. */
  lemma HeaderLineByToken(line: string, h: Header)
    ensures var ws := Words(line); var t := Nth(ws, 0); var r := HeaderLine(line, h);
      && (t == "ply" || t == "PLY" || t == "" ==> r == Reading(h))
      && (t == "end_header" ==> r == Done(h))
      && (t !in {"ply", "PLY", "", "comment", "format", "element", "property", "obj_info", "end_header"} ==>
            r == Failed(h, InvalidHeader))
      && (t == "format" ==>
            && (Nth(ws, 1) == "binary_little_endian" ==> r == Reading(h.(isBinary := true)))
            && (Nth(ws, 1) == "binary_big_endian" ==> r == Failed(h, BigEndianNotSupported))
            && (Nth(ws, 1) !in {"binary_little_endian", "binary_big_endian"} ==> r == Reading(h)))
      && (t == "element" ==>
            && (r.Reading? <==> ParseInt32(Nth(ws, 2)).Some?)
            && (r.Reading? ==> r.h == h.(elements := h.elements + [Element(Nth(ws, 1), ParseInt32(Nth(ws, 2)).value, [])])))
      && (t == "property" && h.elements == [] ==> r == Failed(h, NoCurrentElement))
      && (t == "property" && r.Reading? ==>
            && |r.h.elements| == |h.elements| > 0
            && r.h.elements[..|h.elements| - 1] == h.elements[..|h.elements| - 1]
            && r.h == h.(elements := r.h.elements))
      && (t == "property" && h.elements != [] ==>
            var pr := PropertyFromText(NextWord(line).1).0;
            var last := h.elements[|h.elements| - 1];
            && (r.Reading? <==> pr.Ok?)
            && (pr.Err? ==> r == Failed(h, pr.error))
            && (pr.Ok? ==> r.h.elements[|h.elements| - 1] == last.(properties := last.properties + [pr.value])))
  {
    var (token, rest) := NextWord(line);
    NextWordStep(line);
    NextWordStep(rest);
    ElementFromTextWords(rest);
    var ws := Words(line);
    assert Nth(Words(rest), 0) == Nth(ws, 1);
    assert Nth(Words(rest), 1) == Nth(ws, 2);
  }

  // ---------------------------------------------------------------------------------------
  // The header as WriteHeader emits it

  /** A property line after its first word. */
  function PropertyText(p: Property): string
  {
    if p.IsList() then "list " + Str(p.listType.value) + " " + Str(p.propertyType) + " " + p.name
    else Str(p.propertyType) + " " + p.name
  }

  function PropertyLine(p: Property): string
  {
    "property " + PropertyText(p)
  }

  function PropertyLines(ps: seq<Property>): (r: seq<string>)
    ensures |r| == |ps|
  {
    seq(|ps|, i requires 0 <= i < |ps| => PropertyLine(ps[i]))
  }

  lemma PropertyLinesSnoc(ps: seq<Property>, j: nat)
    requires j < |ps|
    ensures PropertyLines(ps[..j + 1]) == PropertyLines(ps[..j]) + [PropertyLine(ps[j])]
  {
    TakeOneMore(ps, j);
    PropertyLinesAppend(ps[..j], [ps[j]]);
  }

  lemma PropertyLinesAppend(a: seq<Property>, b: seq<Property>)
    ensures PropertyLines(a + b) == PropertyLines(a) + PropertyLines(b)
  {
  }

  function ElementLines(e: Element): seq<string>
  {
    ["element " + e.name + " " + IntToString(e.size)] + PropertyLines(e.properties)
  }

  function ElementsLines(es: seq<Element>): seq<string>
  {
    if es == [] then [] else ElementsLines(es[..|es| - 1]) + ElementLines(es[|es| - 1])
  }

  function CommentLines(cs: seq<string>): (r: seq<string>)
    ensures |r| == |cs|
  {
    seq(|cs|, i requires 0 <= i < |cs| => "comment " + cs[i])
  }

  lemma CommentLinesSnoc(cs: seq<string>, m: nat)
    requires m < |cs|
    ensures CommentLines(cs[..m + 1]) == CommentLines(cs[..m]) + ["comment " + cs[m]]
  {
  }

  /** The lines of an ascii header, in order. ObjInfo is not written. */
  function HeaderLines(h: Header): seq<string>
  {
    ["ply", "format ascii 1.0"] + CommentLines(h.comments) + ElementsLines(h.elements) + ["end_header"]
  }

  /** The text of lines written one WriteLine at a time. */
  function JoinLines(ls: seq<string>): string
  {
    if ls == [] then "" else JoinLines(ls[..|ls| - 1]) + ls[|ls| - 1] + NewLine
  }

  lemma {:induction false} JoinLinesAppend(a: seq<string>, b: seq<string>)
    ensures JoinLines(a + b) == JoinLines(a) + JoinLines(b)
    decreases |b|
  {
    if b == [] {
      assert a + b == a;
    } else {
      var b' := b[..|b| - 1];
      assert (a + b)[..|a + b| - 1] == a + b';
      JoinLinesAppend(a, b');
    }
  }

  /** The header text: every line ends with the newline; a binary header throws after `ply`. */
  function HeaderText(h: Header): (Option<PlyError>, string)
  {
    if h.isBinary then (Some(BinaryNotImplemented), JoinLines(["ply"]))
    else (None, JoinLines(HeaderLines(h)))
  }

  // ---------------------------------------------------------------------------------------
  // Reading back what was written

  /** A header the writer can emit and the reader can take back: names are single non-empty
      tokens, counts fit in 32 bits, comments hold no line break, ListCount is 0. */
  ghost predicate Writable(h: Header)
  {
    && !h.isBinary
    && (forall c :: c in h.comments ==> '\r' !in c && '\n' !in c)
    && (forall e :: e in h.elements ==> WritableElement(e))
  }

  ghost predicate WritableElement(e: Element)
  {
    && e.name != [] && NoWhiteSpace(e.name)
    && Int32Min <= e.size <= Int32Max
    && (forall p :: p in e.properties ==> p.name != [] && NoWhiteSpace(p.name) && p.listCount == 0)
  }

  lemma StrIsToken(k: ScalarKind)
    ensures Str(k) != [] && NoWhiteSpace(Str(k)) && Str(k) != "list"
  {
    match k
    case SByte =>
    case Byte =>
    case Short =>
    case UShort =>
    case Int =>
    case UInt =>
    case Float =>
    case Double =>
  }

  lemma IntToStringIsToken(n: int)
    ensures IntToString(n) != [] && NoWhiteSpace(IntToString(n))
  {
    var s := IntToString(n);
    if n < 0 {
      assert s[1..] == NatToString(0 - n);
      assert forall i :: 1 <= i < |s| ==> IsDigit(s[i]) by {
        forall i | 1 <= i < |s| ensures IsDigit(s[i]) {
          assert s[i] == s[1..][i - 1];
        }
      }
    }
  }

  lemma {:induction false} RestOfLineWhole(c: string)
    requires '\r' !in c && '\n' !in c
    ensures RestOfLine(c) == c
    decreases |c|
  {
    if c != [] {
      assert '\r' !in c[1..] && '\n' !in c[1..] by {
        forall x | x in c[1..] ensures x in c { }
      }
      RestOfLineWhole(c[1..]);
      assert c == [c[0]] + c[1..];
    }
  }

  /** "w rest" splits into the token w and the text rest. */
  lemma SplitLine(w: string, rest: string, line: string)
    requires w != [] && NoWhiteSpace(w) && line == w + " " + rest
    ensures NextWord(line) == (w, rest)
  {
    NextWordOfSpaced(w, rest);
  }

  lemma PropertyTextRead(p: Property)
    requires p.name != [] && NoWhiteSpace(p.name) && p.listCount == 0
    ensures PropertyFromText(PropertyText(p)).0 == Ok(p)
  {
    var t := Str(p.propertyType);
    StrIsToken(p.propertyType);
    NextWordOfSpaced(p.name, "");
    TokenRoundTrip(p.propertyType);
    var r3 := t + " " + p.name;
    SplitLine(t, p.name, r3);
    if p.IsList() {
      var c := Str(p.listType.value);
      StrIsToken(p.listType.value);
      TokenRoundTrip(p.listType.value);
      var r2 := c + " " + r3;
      var r1 := "list" + " " + r2;
      assert PropertyText(p) == r1;
      SplitLine("list", r2, r1);
      SplitLine(c, r3, r2);
    } else {
      assert PropertyText(p) == r3;
    }
  }

  lemma PropertyLineRead(p: Property, h: Header)
    requires h.elements != [] && p.name != [] && NoWhiteSpace(p.name) && p.listCount == 0
    ensures HeaderLine(PropertyLine(p), h) == Reading(h.(elements := AddToLast(h.elements, p)))
  {
    assert PropertyLine(p) == "property" + " " + PropertyText(p);
    KeywordsAreTokens();
    SplitLine("property", PropertyText(p), PropertyLine(p));
    PropertyTextRead(p);
  }

  lemma {:induction false} PropertyLinesRead(ps: seq<Property>, h: Header, e: Element)
    requires forall p :: p in ps ==> p.name != [] && NoWhiteSpace(p.name) && p.listCount == 0
    ensures Run(PropertyLines(ps), Reading(h.(elements := h.elements + [e])))
         == Reading(h.(elements := h.elements + [e.(properties := e.properties + ps)]))
    decreases |ps|
  {
    if ps == [] {
      assert e.(properties := e.properties + ps) == e;
    } else {
      assert forall q :: q in ps[..|ps| - 1] ==> q in ps;
      PropertyLinesRead(ps[..|ps| - 1], h, e);
      PropertyLinesStep(ps, h, e);
    }
  }

  /** One more property line read back after those before it. */
  lemma PropertyLinesStep(ps: seq<Property>, h: Header, e: Element)
    requires ps != [] && ps[|ps| - 1].name != [] && NoWhiteSpace(ps[|ps| - 1].name) && ps[|ps| - 1].listCount == 0
    requires Run(PropertyLines(ps[..|ps| - 1]), Reading(h.(elements := h.elements + [e])))
          == Reading(h.(elements := h.elements + [e.(properties := e.properties + ps[..|ps| - 1])]))
    ensures Run(PropertyLines(ps), Reading(h.(elements := h.elements + [e])))
         == Reading(h.(elements := h.elements + [e.(properties := e.properties + ps)]))
  {
    var ps', p := ps[..|ps| - 1], ps[|ps| - 1];
    var e' := e.(properties := e.properties + ps');
    var h1 := h.(elements := h.elements + [e']);
    var final := h.(elements := h.elements + [e.(properties := e.properties + ps)]);
    PropertyLineRead(p, h1);
    RunOne(PropertyLine(p), Reading(h1));
    AddToLastSnoc(h.elements, e', p);
    AppendLast(e.properties, ps);
    assert h.elements + [e'.(properties := e'.properties + [p])] == final.elements;
    PropertyLinesSnoc(ps, |ps| - 1);
    TakeAll(ps);
    RunThen(PropertyLines(ps'), [PropertyLine(p)], Reading(h.(elements := h.elements + [e])), Reading(h1), Reading(final));
  }

  lemma AddToLastSnoc(es: seq<Element>, e: Element, p: Property)
    ensures AddToLast(es + [e], p) == es + [e.(properties := e.properties + [p])]
  {
    assert (es + [e])[..|es|] == es;
  }

  /** The element line, read back, appends the element without its properties. */
  lemma ElementLineRead(e: Element, h: Header)
    requires WritableElement(e)
    ensures Run(["element " + e.name + " " + IntToString(e.size)], Reading(h))
         == Reading(h.(elements := h.elements + [Element(e.name, e.size, [])]))
  {
    var rest := e.name + " " + IntToString(e.size);
    var line := "element " + e.name + " " + IntToString(e.size);
    assert line == "element" + " " + rest;
    KeywordsAreTokens();
    SplitLine("element", rest, line);
    ElementTextRead(e);
    RunOne(line, Reading(h));
  }

  /** The rest of an element line, name and count, parses back to the element. */
  lemma ElementTextRead(e: Element)
    requires e.name != [] && NoWhiteSpace(e.name) && Int32Min <= e.size <= Int32Max
    ensures ElementFromText(e.name + " " + IntToString(e.size)).0 == Ok(Element(e.name, e.size, []))
  {
    var n := IntToString(e.size);
    IntToStringIsToken(e.size);
    SplitLine(e.name, n, e.name + " " + n);
    NextWordOfSpaced(n, "");
    ParseIntToString(e.size);
  }

  /** The directive words the writer emits are single tokens. */
  lemma KeywordsAreTokens()
    ensures NoWhiteSpace("element") && NoWhiteSpace("property") && NoWhiteSpace("comment")
    ensures NoWhiteSpace("end_header") && NoWhiteSpace("format") && NoWhiteSpace("ply") && NoWhiteSpace("obj_info")
  {
  }

  lemma ElementLinesRead(e: Element, h: Header)
    requires WritableElement(e)
    ensures Run(ElementLines(e), Reading(h)) == Reading(h.(elements := h.elements + [e]))
  {
    var e0 := Element(e.name, e.size, []);
    var h0 := h.(elements := h.elements + [e0]);
    ElementLineRead(e, h);
    PropertyLinesRead(e.properties, h, e0);
    assert e0.(properties := e0.properties + e.properties) == e;
    RunThen(["element " + e.name + " " + IntToString(e.size)], PropertyLines(e.properties),
            Reading(h), Reading(h0), Reading(h.(elements := h.elements + [e])));
  }

  lemma {:induction false} ElementsLinesRead(es: seq<Element>, h: Header)
    requires forall e :: e in es ==> WritableElement(e)
    ensures Run(ElementsLines(es), Reading(h)) == Reading(h.(elements := h.elements + es))
    decreases |es|
  {
    if es == [] {
      assert h.(elements := h.elements + es) == h;
    } else {
      assert forall x :: x in es[..|es| - 1] ==> x in es;
      ElementsLinesRead(es[..|es| - 1], h);
      ElementsLinesStep(es, h);
    }
  }

  /** One more element read back after those before it. */
  lemma ElementsLinesStep(es: seq<Element>, h: Header)
    requires es != [] && WritableElement(es[|es| - 1])
    requires Run(ElementsLines(es[..|es| - 1]), Reading(h)) == Reading(h.(elements := h.elements + es[..|es| - 1]))
    ensures Run(ElementsLines(es), Reading(h)) == Reading(h.(elements := h.elements + es))
  {
    var es', e := es[..|es| - 1], es[|es| - 1];
    var h1 := h.(elements := h.elements + es');
    var b := LastElementLines(es, h1);
    AppendLast(h.elements, es);
    RunThen(ElementsLines(es'), b, Reading(h), Reading(h1), Reading(h.(elements := h.elements + es)));
  }

  /** The lines of the last element, handed back without their shape so that the caller's
      proof does not parse them again. */
  lemma LastElementLines(es: seq<Element>, h: Header) returns (b: seq<string>)
    requires es != [] && WritableElement(es[|es| - 1])
    ensures ElementsLines(es) == ElementsLines(es[..|es| - 1]) + b
    ensures Run(b, Reading(h)) == Reading(h.(elements := h.elements + [es[|es| - 1]]))
  {
    ElementLinesRead(es[|es| - 1], h);
    b := ElementLines(es[|es| - 1]);
  }

  lemma {:induction false} CommentLinesRead(cs: seq<string>, h: Header)
    requires forall c :: c in cs ==> '\r' !in c && '\n' !in c
    ensures Run(CommentLines(cs), Reading(h)) == Reading(h.(comments := h.comments + cs))
    decreases |cs|
  {
    if cs == [] {
      assert h.(comments := h.comments + cs) == h;
    } else {
      assert forall x :: x in cs[..|cs| - 1] ==> x in cs;
      CommentLinesRead(cs[..|cs| - 1], h);
      CommentLinesStep(cs, h);
    }
  }

  /** One more comment line read back after those before it. */
  lemma CommentLinesStep(cs: seq<string>, h: Header)
    requires cs != [] && '\r' !in cs[|cs| - 1] && '\n' !in cs[|cs| - 1]
    requires Run(CommentLines(cs[..|cs| - 1]), Reading(h)) == Reading(h.(comments := h.comments + cs[..|cs| - 1]))
    ensures Run(CommentLines(cs), Reading(h)) == Reading(h.(comments := h.comments + cs))
  {
    var cs', c := cs[..|cs| - 1], cs[|cs| - 1];
    var h1 := h.(comments := h.comments + cs');
    TextLineRead(c, h1);
    RunOne("comment " + c, Reading(h1));
    AppendLast(h.comments, cs);
    assert CommentLines(cs) == CommentLines(cs') + ["comment " + c];
    RunThen(CommentLines(cs'), ["comment " + c], Reading(h), Reading(h1), Reading(h.(comments := h.comments + cs)));
  }

  /** A comment or obj_info line keeps everything after the one space that ends its first
      word, leading spaces included, as one entry at the end of its list. */
  lemma TextLineRead(c: string, h: Header)
    requires '\r' !in c && '\n' !in c
    ensures HeaderLine("comment " + c, h) == Reading(h.(comments := h.comments + [c]))
    ensures HeaderLine("obj_info " + c, h) == Reading(h.(objInfo := h.objInfo + [c]))
  {
    assert "comment " + c == "comment" + " " + c;
    assert "obj_info " + c == "obj_info" + " " + c;
    KeywordsAreTokens();
    SplitLine("comment", c, "comment " + c);
    SplitLine("obj_info", c, "obj_info " + c);
    RestOfLineWhole(c);
  }

  lemma PlyLineRead(h: Header)
    ensures HeaderLine("ply", h) == Reading(h)
  {
    NextWordOfSpaced("ply", "");
  }

  lemma FormatLineRead(h: Header)
    ensures HeaderLine("format ascii 1.0", h) == Reading(h)
  {
    FormatLineWords();
    AsciiWord();
  }

  lemma FormatLineWords()
    ensures NextWord("format ascii 1.0") == ("format", "ascii 1.0")
  {
    assert "format ascii 1.0" == "format" + " " + "ascii 1.0";
    SplitLine("format", "ascii 1.0", "format ascii 1.0");
  }

  lemma AsciiWord()
    ensures NextWord("ascii 1.0").0 == "ascii"
  {
    assert "ascii 1.0" == "ascii" + " " + "1.0";
    SplitLine("ascii", "1.0", "ascii 1.0");
  }

  lemma StartLinesRead(h: Header)
    ensures Run(["ply", "format ascii 1.0"], Reading(h)) == Reading(h)
  {
    assert ["ply", "format ascii 1.0"] == ["ply"] + ["format ascii 1.0"];
    RunAppend(["ply"], ["format ascii 1.0"], Reading(h));
    RunOne("ply", Reading(h));
    RunOne("format ascii 1.0", Reading(h));
    PlyLineRead(h);
    FormatLineRead(h);
  }

  lemma EndLineRead(h: Header)
    ensures Run(["end_header"], Reading(h)) == Done(h)
  {
    KeywordsAreTokens();
    NextWordOfSpaced("end_header", "");
    RunOne("end_header", Reading(h));
  }

  lemma HeaderLinesRead(h: Header, h0: Header)
    requires Writable(h)
    ensures Run(HeaderLines(h), Reading(h0))
         == Done(h0.(comments := h0.comments + h.comments, elements := h0.elements + h.elements))
  {
    var start := ["ply", "format ascii 1.0"];
    var cl := CommentLines(h.comments);
    var el := ElementsLines(h.elements);
    var h1 := h0.(comments := h0.comments + h.comments);
    var h2 := h1.(elements := h0.elements + h.elements);
    StartLinesRead(h0);
    RunAppend(start, cl, Reading(h0));
    CommentLinesRead(h.comments, h0);
    RunAppend(start + cl, el, Reading(h0));
    ElementsLinesRead(h.elements, h1);
    RunAppend(start + cl + el, ["end_header"], Reading(h0));
    EndLineRead(h2);
  }

  /** What the writer emits, read back by the header parser, gives the same schema and comments
      in the same order; the parser stops at end_header whatever follows it. ObjInfo is not
      written, so it comes back empty. */
  lemma HeaderRoundTrip(h: Header, body: seq<string>)
    requires Writable(h)
    ensures ParseHeaderLines(HeaderLines(h) + body, EmptyHeader) == Done(h.(objInfo := []))
  {
    var h0 := EmptyHeader;
    HeaderLinesRead(h, h0);
    RunAppend(HeaderLines(h), body, Reading(h0));
    RunStopped(body, Run(HeaderLines(h), Reading(h0)));
    assert h0.(comments := h0.comments + h.comments, elements := h0.elements + h.elements) == h.(objInfo := []);
  }
}
