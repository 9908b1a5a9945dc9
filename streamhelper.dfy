/** StreamHelper.cs: the word tokenizer over a text reader, the text and the fixed-width binary
    codecs the read traversal is driven by, the big-endian byte swap, and the text writer's
    one-value output. Characters are taken as already decoded. */
module StreamHelper {
  import opened Outcomes
  import opened PlyTypes

  // ---------------------------------------------------------------------------------------
  // Words

  /** char.IsWhiteSpace: the Unicode space separators, the line and paragraph separators and
      the control characters U+0009..U+000D, U+0085. */
  predicate IsWhiteSpace(c: char)
  {
    || c == ' ' || ('\t' <= c <= '\r') || c == '\U{0085}' || c == '\U{00A0}' || c == '\U{1680}'
    || ('\U{2000}' <= c <= '\U{200A}') || c == '\U{2028}' || c == '\U{2029}' || c == '\U{202F}'
    || c == '\U{205F}' || c == '\U{3000}'
  }

  predicate NoWhiteSpace(s: string) { forall i :: 0 <= i < |s| ==> !IsWhiteSpace(s[i]) }

  predicate AllWhiteSpace(s: string) { forall i :: 0 <= i < |s| ==> IsWhiteSpace(s[i]) }

  /** How many whitespace characters the first loop of ReadWord skips. */
  function LeadingWhiteSpace(s: string): (n: nat)
    ensures n <= |s|
  {
    if s == [] || !IsWhiteSpace(s[0]) then 0 else 1 + LeadingWhiteSpace(s[1..])
  }

  /** The second loop of ReadWord: characters up to the first whitespace or the end; the
      whitespace that ends the word is consumed with it. */
  function TakeWord(s: string): (string, string)
  {
    if s == [] then ("", "")
    else if IsWhiteSpace(s[0]) then ("", s[1..])
    else var (w, r) := TakeWord(s[1..]); ([s[0]] + w, r)
  }

  /** ReadWord as a function of the unread text: the word, and the text left unread. */
  function NextWord(s: string): (string, string)
  {
    TakeWord(s[LeadingWhiteSpace(s)..])
  }

  /** Length of the run of non-whitespace characters at the front of s. */
  function RunLength(s: string): (n: nat)
    ensures n <= |s|
  {
    if s == [] || IsWhiteSpace(s[0]) then 0 else 1 + RunLength(s[1..])
  }

  /** The whitespace-separated tokens of a text, defined by splitting (independently of ReadWord). */
  function Words(s: string): seq<string>
    decreases |s|
  {
    if s == [] then []
    else if IsWhiteSpace(s[0]) then Words(s[1..])
    else
      var n := RunLength(s);
      [s[..n]] + Words(s[n..])
  }

  lemma {:induction false} RunLengthShape(s: string)
    ensures NoWhiteSpace(s[..RunLength(s)])
    ensures RunLength(s) < |s| ==> IsWhiteSpace(s[RunLength(s)])
  {
    if s != [] && !IsWhiteSpace(s[0]) {
      RunLengthShape(s[1..]);
      assert s[..RunLength(s)] == [s[0]] + s[1..][..RunLength(s[1..])];
    }
  }

  lemma {:induction false} TakeWordRun(s: string)
    ensures TakeWord(s).0 == s[..RunLength(s)]
    ensures TakeWord(s).1 == if RunLength(s) == |s| then [] else s[RunLength(s) + 1..]
  {
    if s != [] && !IsWhiteSpace(s[0]) {
      TakeWordRun(s[1..]);
      assert s[..RunLength(s)] == [s[0]] + s[1..][..RunLength(s[1..])];
    }
  }

  lemma {:induction false} LeadingWhiteSpaceShape(s: string)
    ensures AllWhiteSpace(s[..LeadingWhiteSpace(s)])
    ensures LeadingWhiteSpace(s) < |s| ==> !IsWhiteSpace(s[LeadingWhiteSpace(s)])
  {
    if s != [] && IsWhiteSpace(s[0]) {
      LeadingWhiteSpaceShape(s[1..]);
      assert s[..LeadingWhiteSpace(s)] == [s[0]] + s[1..][..LeadingWhiteSpace(s[1..])];
    }
  }

  /** ReadWord skips the leading whitespace, returns the maximal run of non-whitespace that
      follows, and consumes at most the one whitespace character that ends it. */
  ghost predicate WordAt(s: string, k: nat, w: string, r: string)
  {
    && k + |w| <= |s|
    && AllWhiteSpace(s[..k])
    && NoWhiteSpace(w)
    && s[k..k + |w|] == w
    && (k + |w| == |s| ==> r == [])
    && (k + |w| < |s| ==> IsWhiteSpace(s[k + |w|]) && r == s[k + |w| + 1..])
  }

  lemma NextWordShape(s: string)
    ensures WordAt(s, LeadingWhiteSpace(s), NextWord(s).0, NextWord(s).1)
  {
    var k := LeadingWhiteSpace(s);
    var t := s[k..];
    LeadingWhiteSpaceShape(s);
    TakeWordRun(t);
    RunLengthShape(t);
    WordAtParts(s, k, RunLength(t), TakeWord(t).0, TakeWord(t).1);
  }

  lemma WordAtParts(s: string, k: nat, n: nat, w: string, r: string)
    requires k + n <= |s| && AllWhiteSpace(s[..k])
    requires NoWhiteSpace(s[k..][..n]) && (n < |s| - k ==> IsWhiteSpace(s[k..][n]))
    requires w == s[k..][..n] && r == if n == |s| - k then [] else s[k..][n + 1..]
    ensures WordAt(s, k, w, r)
  {
    DropThenTake(s, k, n);
    if n < |s| - k {
      DropThenDrop(s, k, n + 1);
    }
  }

  /** The word is empty exactly when only whitespace (or nothing) is left. */
  lemma NextWordEmpty(s: string)
    ensures NextWord(s).0 == [] <==> AllWhiteSpace(s)
  {
    NextWordShape(s);
    var k := LeadingWhiteSpace(s);
    LeadingWhiteSpaceShape(s);
    if NextWord(s).0 != [] {
      assert !IsWhiteSpace(s[k]);
    } else {
      assert s[..k] == s;
    }
  }

  /** Calling ReadWord again and again on a text yields its tokens, in order. */
  lemma {:induction false} NextWordWords(s: string)
    ensures var (w, r) := NextWord(s);
      (w == [] ==> Words(s) == []) && (w != [] ==> Words(s) == [w] + Words(r))
    decreases |s|
  {
    if s == [] {
    } else if IsWhiteSpace(s[0]) {
      assert NextWord(s) == NextWord(s[1..]);
      NextWordWords(s[1..]);
    } else {
      assert LeadingWhiteSpace(s) == 0;
      TakeWordRun(s);
      RunLengthShape(s);
      var n := RunLength(s);
      if n < |s| {
        assert Words(s[n..]) == Words(s[n + 1..]);
      }
    }
  }

  /** The tokenizer on a line the writer produced: a non-empty word, one space, the rest. */
  lemma NextWordOfSpaced(w: string, rest: string)
    requires w != [] && NoWhiteSpace(w)
    ensures NextWord(w + " " + rest) == (w, rest)
    ensures NextWord(w) == (w, [])
  {
    var s := w + " " + rest;
    assert LeadingWhiteSpace(s) == 0 && s[0..] == s;
    assert LeadingWhiteSpace(w) == 0 && w[0..] == w;
    assert s[..|w|] == w && w[..|w|] == w;
    RunLengthShape(s);
    RunLengthShape(w);
    TakeWordRun(s);
    TakeWordRun(w);
    RunLengthAt(s, |w|);
    RunLengthAt(w, |w|);
    assert s[|w| + 1..] == rest;
  }

  /** Token i of a list of tokens, or "" past the end (what ReadWord returns once a line is
      used up). */
  function Nth(ws: seq<string>, i: nat): string
  {
    if i < |ws| then ws[i] else ""
  }

  /** The tokens left after n more reads. */
  function Drop(ws: seq<string>, n: nat): seq<string>
  {
    if n <= |ws| then ws[n..] else []
  }

  /** One ReadWord returns the first token and leaves exactly the others unread. */
  lemma NextWordStep(s: string)
    ensures NextWord(s).0 == Nth(Words(s), 0)
    ensures Words(NextWord(s).1) == Drop(Words(s), 1)
  {
    NextWordWords(s);
    NextWordEmpty(s);
    if NextWord(s).0 == [] {
      var r := NextWord(s).1;
      NextWordShape(s);
      assert forall i :: 0 <= i < |r| ==> IsWhiteSpace(r[i]) by {
        forall i | 0 <= i < |r| ensures IsWhiteSpace(r[i]) {
          assert r[i] == s[|s| - |r| + i];
        }
      }
      NextWordEmpty(r);
      NextWordWords(r);
    }
  }

  /** Chains two known prefixes: ws is head then mid, and mid is rest then tail. Stated on
      plain sequences so that proofs about token lists need not unfold Words. */
  lemma AppendChain<T>(ws: seq<T>, head: seq<T>, mid: seq<T>, rest: seq<T>, tail: seq<T>, all: seq<T>)
    requires ws == head + mid && mid == rest + tail && all == head + rest
    ensures ws == all + tail
  {
  }

  /** The tokens of a line the writer produced: a word, one space, then the rest's tokens. */
  lemma WordsOfSpaced(w: string, rest: string)
    requires w != [] && NoWhiteSpace(w)
    ensures Words(w + " " + rest) == [w] + Words(rest)
    ensures Words(w) == [w]
  {
    NextWordOfSpaced(w, rest);
    NextWordWords(w + " " + rest);
    NextWordWords(w);
    assert Words([]) == [];
  }

  lemma {:induction false} RunLengthAt(s: string, n: nat)
    requires n <= |s| && NoWhiteSpace(s[..n]) && (n < |s| ==> IsWhiteSpace(s[n]))
    ensures RunLength(s) == n
  {
    if n > 0 {
      assert !IsWhiteSpace(s[0]);
      assert s[1..][..n - 1] == s[..n][1..];
      RunLengthAt(s[1..], n - 1);
    }
  }

  /** StringReader.ReadLine on what is left of a header line: the text up to the first line
      break. At the end of the text .NET returns null; the model returns "" for it. */
  function RestOfLine(s: string): (line: string)
    ensures |line| <= |s| && line == s[..|line|]
    ensures forall i :: 0 <= i < |line| ==> line[i] != '\r' && line[i] != '\n'
    ensures |line| < |s| ==> s[|line|] == '\r' || s[|line|] == '\n'
  {
    if s == [] || s[0] == '\r' || s[0] == '\n' then ""
    else [s[0]] + RestOfLine(s[1..])
  }

  /** One whitespace character skipped by the first loop of ReadWord. */
  lemma SkipOne(text: string, pos: nat)
    requires pos < |text| && IsWhiteSpace(text[pos])
    ensures LeadingWhiteSpace(text[pos..]) == 1 + LeadingWhiteSpace(text[pos + 1..])
  {
    assert text[pos..][1..] == text[pos + 1..];
  }

  /** Where the first loop of ReadWord stops, the leading whitespace has been skipped. */
  lemma SkipDone(text: string, start: nat, pos: nat)
    requires start <= pos <= |text| && (pos == |text| || !IsWhiteSpace(text[pos]))
    requires start + LeadingWhiteSpace(text[start..]) == pos + LeadingWhiteSpace(text[pos..])
    ensures text[start..][LeadingWhiteSpace(text[start..])..] == text[pos..]
  {
    assert LeadingWhiteSpace(text[pos..]) == 0;
  }

  /** The second loop of ReadWord, part way: word followed by the rest of the run from s is the
      word to return, and the text the run leaves is the text to leave unread. */
  ghost predicate Taking(word: string, s: string, goalWord: string, goalRest: string)
  {
    word + TakeWord(s).0 == goalWord && TakeWord(s).1 == goalRest
  }

  /** One character taken by the second loop of ReadWord: a whitespace ends the word and is
      consumed with it, any other character joins the word. */
  lemma TakeOne(word: string, text: string, pos: nat, goalWord: string, goalRest: string)
    requires pos < |text| && Taking(word, text[pos..], goalWord, goalRest)
    ensures IsWhiteSpace(text[pos]) ==> word == goalWord && text[pos + 1..] == goalRest
    ensures !IsWhiteSpace(text[pos]) ==> Taking(word + [text[pos]], text[pos + 1..], goalWord, goalRest)
  {
    assert text[pos..][0] == text[pos] && text[pos..][1..] == text[pos + 1..];
    if IsWhiteSpace(text[pos]) {
      AppendEmpty(word);
    } else {
      AppendOne(word, text[pos], TakeWord(text[pos + 1..]).0);
    }
  }

  /** The end of the text ends the word. */
  lemma TakeEnd(word: string, text: string, goalWord: string, goalRest: string)
    requires Taking(word, text[|text|..], goalWord, goalRest)
    ensures word == goalWord && text[|text|..] == goalRest
  {
    AppendEmpty(word);
  }


  /** A reader over a text with a read position: StringReader for a header line, StreamReader
      for a text body. */
  class TextReader {
    const text: string
    var pos: nat

    ghost predicate Valid()
      reads this
    {
      pos <= |text|
    }

    /** The part of the text not read yet. */
    function Rest(): string
      reads this
      requires Valid()
    {
      text[pos..]
    }

    constructor (text: string)
      ensures Valid() && this.text == text && Rest() == text
    {
      this.text := text;
      pos := 0;
    }

    /** StreamHelper.ReadWord: skip whitespace, then read up to and including the next
        whitespace character or the end of the text. */
    method ReadWord() returns (word: string)
      requires Valid()
      modifies this
      ensures Valid()
      ensures (word, Rest()) == NextWord(old(Rest()))
    {
      SkipWhiteSpace();
      word := TakeRun();
    }

    /** The first loop of ReadWord: Peek and Read while the next character is whitespace. */
    method SkipWhiteSpace()
      requires Valid()
      modifies this
      ensures Valid() && Rest() == old(Rest())[LeadingWhiteSpace(old(Rest()))..]
    {
      ghost var start := pos;
      while pos < |text| && IsWhiteSpace(text[pos])
        invariant start <= pos <= |text|
        invariant start + LeadingWhiteSpace(text[start..]) == pos + LeadingWhiteSpace(text[pos..])
      {
        SkipOne(text, pos);
        pos := pos + 1;
      }
      SkipDone(text, start, pos);
    }

    /** The second loop of ReadWord: each character read is appended to the word, until a
        whitespace character (read and dropped) or the end of the text. */
    method TakeRun() returns (word: string)
      requires Valid()
      modifies this
      ensures Valid() && (word, Rest()) == TakeWord(old(Rest()))
    {
      ghost var goalWord := TakeWord(text[pos..]).0;
      ghost var goalRest := TakeWord(text[pos..]).1;
      word := "";
      EmptyAppend(goalWord);
      while pos < |text| && !IsWhiteSpace(text[pos])
        invariant pos <= |text| && Taking(word, text[pos..], goalWord, goalRest)
      {
        TakeOne(word, text, pos, goalWord, goalRest);
        word := word + [text[pos]];
        pos := pos + 1;
      }
      if pos < |text| {
        TakeOne(word, text, pos, goalWord, goalRest);
        pos := pos + 1;
      } else {
        TakeEnd(word, text, goalWord, goalRest);
      }
    }

    /** StringReader.ReadLine: the rest of the current line. */
    method ReadLine() returns (line: string)
      requires Valid()
      modifies this
      ensures Valid()
      ensures line == RestOfLine(old(Rest()))
    {
      line := RestOfLine(text[pos..]);
      pos := pos + |line|;
      if pos < |text| {
        if text[pos] == '\r' && pos + 1 < |text| && text[pos + 1] == '\n' {
          pos := pos + 2;
        } else {
          pos := pos + 1;
        }
      }
    }

    /** Text ReadData. */
    method ReadData<V>(convert: (string, ScalarKind) -> Option<V>, k: ScalarKind) returns (v: Option<V>)
      requires Valid()
      modifies this
      ensures Valid()
      ensures (v, Rest()) == TextReadData(convert, k, old(Rest()))
    {
      var w := ReadWord();
      if ToLowerAscii(w) == "nan" {
        w := "NaN";
      }
      v := convert(w, k);
    }

    /** Text SkipData. */
    method SkipData(k: ScalarKind)
      requires Valid()
      modifies this
      ensures Valid()
      ensures Rest() == TextSkipData(k, old(Rest()))
    {
      var w := ReadWord();
    }
  }

  // ---------------------------------------------------------------------------------------
  // Text codec

  function ToLowerAscii(w: string): (r: string)
    ensures |r| == |w|
  {
    seq(|w|, i requires 0 <= i < |w| => if 'A' <= w[i] <= 'Z' then (w[i] as int + 32) as char else w[i])
  }

  /** The nan step of text ReadData: any case variant of "nan" becomes "NaN". */
  function NormalizeNan(w: string): (r: string)
  {
    if ToLowerAscii(w) == "nan" then "NaN" else w
  }

  /** NormalizeNan changes only the eight spellings of nan, all into "NaN", and is idempotent. */
  lemma NormalizeNanSpec(w: string)
    ensures NormalizeNan(w) != w ==>
      (NormalizeNan(w) == "NaN" && |w| == 3 && w[0] in "nN" && w[1] in "aA" && w[2] in "nN")
    ensures (|w| == 3 && w[0] in "nN" && w[1] in "aA" && w[2] in "nN") ==> NormalizeNan(w) == "NaN"
    ensures NormalizeNan(NormalizeNan(w)) == NormalizeNan(w)
  {
    if |w| == 3 && w[0] in "nN" && w[1] in "aA" && w[2] in "nN" {
      assert ToLowerAscii(w) == "nan";
    }
    if ToLowerAscii(w) == "nan" {
      assert ToLowerAscii(w)[0] == 'n' && ToLowerAscii(w)[1] == 'a' && ToLowerAscii(w)[2] == 'n';
      assert ToLowerAscii("NaN") == "nan";
    }
  }

  /** Text ReadData: one word, nan-normalised, then converted to the requested kind by
      Convert.ChangeType, which is the parameter convert (None: FormatException). */
  function TextReadData<V>(convert: (string, ScalarKind) -> Option<V>, k: ScalarKind, s: string): (Option<V>, string)
  {
    var (w, r) := NextWord(s);
    (convert(NormalizeNan(w), k), r)
  }

  /** Text SkipData: one word read and dropped. */
  function TextSkipData(k: ScalarKind, s: string): string
  {
    NextWord(s).1
  }

  /** Each text read or skip consumes exactly one token, and the read converts that token. */
  lemma TextCodecConsumesOneWord<V>(convert: (string, ScalarKind) -> Option<V>, k: ScalarKind, s: string)
    ensures Words(s) == [] ==> Words(TextSkipData(k, s)) == []
    ensures Words(s) != [] ==> Words(TextSkipData(k, s)) == Words(s)[1..]
    ensures TextReadData(convert, k, s).1 == TextSkipData(k, s)
    ensures Words(s) != [] ==> TextReadData(convert, k, s).0 == convert(NormalizeNan(Words(s)[0]), k)
  {
    NextWordStep(s);
  }

  // ---------------------------------------------------------------------------------------
  // Binary codec

  newtype byte = x: int | 0 <= x < 256

  /** BinaryReader.Read(buf, 0, size) into a fresh zeroed buffer: as many bytes as are left, up
      to size; the rest of the buffer stays zero. Returns the buffer and the unread bytes. */
  function FixedWidth(s: seq<byte>, size: nat): (seq<byte>, seq<byte>)
  {
    var n := if |s| < size then |s| else size;
    (s[..n] + Zeros(size - n), s[n..])
  }

  function Zeros(n: nat): (z: seq<byte>)
    ensures |z| == n && forall i :: 0 <= i < n ==> z[i] == 0
  {
    seq(n, _ => 0)
  }

  /** Binary ReadData requests exactly Stride(k) bytes (Marshal.SizeOf of the 8 types), always
      gets a buffer of that width, and never fails; ByteHelper's decoding is the parameter decode. */
  function BinaryReadData<V>(decode: (seq<byte>, ScalarKind) -> V, k: ScalarKind, s: seq<byte>): (Option<V>, seq<byte>)
  {
    var (buf, r) := FixedWidth(s, Stride(k));
    (Some(decode(buf, k)), r)
  }

  function BinarySkipData(k: ScalarKind, s: seq<byte>): seq<byte>
  {
    FixedWidth(s, Stride(k)).1
  }

  /** Read and skip advance by the same Stride(k) bytes while that many are left, and the
      buffer decoded is exactly the next Stride(k) bytes. */
  lemma BinaryCodecWidth<V>(decode: (seq<byte>, ScalarKind) -> V, k: ScalarKind, s: seq<byte>)
    ensures BinaryReadData(decode, k, s).1 == BinarySkipData(k, s)
    ensures |FixedWidth(s, Stride(k)).0| == Stride(k)
    ensures Stride(k) <= |s| ==>
      (BinarySkipData(k, s) == s[Stride(k)..] && BinaryReadData(decode, k, s).0 == Some(decode(s[..Stride(k)], k)))
    ensures |s| < Stride(k) ==> BinarySkipData(k, s) == []
  {
    if Stride(k) <= |s| {
      assert Zeros(0) == [];
      assert FixedWidth(s, Stride(k)).0 == s[..Stride(k)];
    }
  }

  function Reverse(s: seq<byte>): (r: seq<byte>)
    ensures |r| == |s|
  {
    seq(|s|, i requires 0 <= i < |s| => s[|s| - 1 - i])
  }

  /** The swap ReadDataBigEndian applies: a reversal for buffers of 2, 4 or 8 bytes, nothing
      for any other width. */
  function ByteSwapped(s: seq<byte>): seq<byte>
  {
    if |s| == 2 || |s| == 4 || |s| == 8 then Reverse(s) else s
  }

  /** Swapping twice gives the buffer back; for every stride the swap is the reversal. */
  lemma ByteSwappedInvolution(s: seq<byte>)
    ensures ByteSwapped(ByteSwapped(s)) == s
    ensures |s| <= 1 ==> ByteSwapped(s) == s == Reverse(s)
  {
    if |s| == 2 || |s| == 4 || |s| == 8 {
      assert Reverse(Reverse(s)) == s;
    }
    if |s| == 1 {
      assert Reverse(s) == s;
    }
  }

  /** A reader over binary body bytes with a read position. */
  class BinaryReader {
    const data: seq<byte>
    var pos: nat

    ghost predicate Valid()
      reads this
    {
      pos <= |data|
    }

    function Rest(): seq<byte>
      reads this
      requires Valid()
    {
      data[pos..]
    }

    constructor (data: seq<byte>)
      ensures Valid() && this.data == data && Rest() == data
    {
      this.data := data;
      pos := 0;
    }

    /** new byte[size] followed by stream.Read(buf, 0, size). */
    method ReadBuffer(size: nat) returns (buf: array<byte>)
      requires Valid()
      modifies this
      ensures Valid() && fresh(buf)
      ensures (buf[..], Rest()) == FixedWidth(old(Rest()), size)
    {
      buf := new byte[size](_ => 0);
      var n := if |data| - pos < size then |data| - pos else size;
      var i := 0;
      while i < n
        invariant 0 <= i <= n && n <= size && pos + n <= |data|
        invariant pos == old(pos)
        invariant forall j :: 0 <= j < i ==> buf[j] == data[pos + j]
        invariant forall j :: i <= j < size ==> buf[j] == 0
      {
        buf[i] := data[pos + i];
        i := i + 1;
      }
      ghost var before := data[pos..];
      assert buf[..] == before[..n] + Zeros(size - n);
      assert before[n..] == data[pos + n..];
      pos := pos + n;
    }

    /** Binary ReadData. */
    method ReadData<V>(decode: (seq<byte>, ScalarKind) -> V, k: ScalarKind) returns (v: V)
      requires Valid()
      modifies this
      ensures Valid()
      ensures (Some(v), Rest()) == BinaryReadData(decode, k, old(Rest()))
    {
      var buf := ReadBuffer(Stride(k));
      v := decode(buf[..], k);
    }

    /** Binary SkipData. */
    method SkipData(k: ScalarKind)
      requires Valid()
      modifies this
      ensures Valid()
      ensures Rest() == BinarySkipData(k, old(Rest()))
    {
      var buf := ReadBuffer(Stride(k));
    }

    /** ReadDataBigEndian: the buffer is byte-swapped in place before it is decoded. */
    method ReadDataBigEndian<V>(decode: (seq<byte>, ScalarKind) -> V, k: ScalarKind) returns (v: V)
      requires Valid()
      modifies this
      ensures Valid()
      ensures Rest() == BinarySkipData(k, old(Rest()))
      ensures v == decode(ByteSwapped(FixedWidth(old(Rest()), Stride(k)).0), k)
    {
      var buf := ReadBuffer(Stride(k));
      SwapBytes(buf);
      v := decode(buf[..], k);
    }
  }

  /** The in-place swaps of ReadDataBigEndian, case by case on the buffer size. */
  method SwapBytes(buf: array<byte>)
    modifies buf
    ensures buf[..] == ByteSwapped(old(buf[..]))
  {
    if buf.Length == 4 {
      var temp1 := buf[0];
      buf[0] := buf[3];
      buf[3] := temp1;
      var temp2 := buf[1];
      buf[1] := buf[2];
      buf[2] := temp2;
    } else if buf.Length == 8 {
      var temp1 := buf[0];
      buf[0] := buf[7];
      buf[7] := temp1;
      var temp2 := buf[1];
      buf[1] := buf[6];
      buf[6] := temp2;
      var temp3 := buf[2];
      buf[2] := buf[5];
      buf[5] := temp3;
      var temp4 := buf[3];
      buf[3] := buf[4];
      buf[4] := temp4;
    } else if buf.Length == 2 {
      var temp := buf[0];
      buf[0] := buf[1];
      buf[1] := temp;
    }
  }

  // ---------------------------------------------------------------------------------------
  // Text writer

  /** Environment.NewLine, taken as the Unix line feed. */
  const NewLine: string := "\n"

  /** A TextWriter as the text it has been given so far. */
  class TextWriter {
    var written: string

    constructor ()
      ensures written == ""
    {
      written := "";
    }

    method Write(s: string)
      modifies this
      ensures written == old(written) + s
    {
      written := written + s;
    }

    method WriteLine(s: string)
      modifies this
      ensures written == old(written) + s + NewLine
    {
      written := written + s + NewLine;
    }

    /** StreamHelper.WriteData: the value's text followed by exactly one space. */
    method WriteData(text: string)
      modifies this
      ensures written == old(written) + text + " "
    {
      Write(text);
      Write(" ");
    }
  }
}
