/** The type registry and key helpers of Helper.cs: the eight scalar kinds PLY supports,
    their byte widths and wire tokens, and the composite key of the binding table. */
module PlyTypes {
  import opened Outcomes

  /** The .NET types that may stand in a property: sbyte, byte, short, ushort, int, uint, float, double. */
  datatype ScalarKind = SByte | Byte | Short | UShort | Int | UInt | Float | Double

  /** One entry of Helper.PropertyTable. */
  datatype PropertyInfo = PropertyInfo(stride: nat, str: string)

  /** Helper.PropertyTable: the byte width and the short token the writer emits. */
  function PropertyTable(k: ScalarKind): PropertyInfo
  {
    match k
    case SByte => PropertyInfo(1, "char")
    case Byte => PropertyInfo(1, "uchar")
    case Short => PropertyInfo(2, "short")
    case UShort => PropertyInfo(2, "ushort")
    case Int => PropertyInfo(4, "int")
    case UInt => PropertyInfo(4, "uint")
    case Float => PropertyInfo(4, "float")
    case Double => PropertyInfo(8, "double")
  }

  function Stride(k: ScalarKind): nat { PropertyTable(k).stride }

  function Str(k: ScalarKind): string { PropertyTable(k).str }

  /** The long spelling of each kind, accepted on read and never written. */
  function LongName(k: ScalarKind): string
  {
    match k
    case SByte => "int8"
    case Byte => "uint8"
    case Short => "int16"
    case UShort => "uint16"
    case Int => "int32"
    case UInt => "uint32"
    case Float => "float32"
    case Double => "float64"
  }

  /** Helper.PropertyTypeFromString: a type token to its kind; any other token fails with the
      not-supported error. */
  function PropertyTypeFromString(t: string): (r: Result<ScalarKind>)
    ensures r.Err? ==> r.error == UnsupportedType
  {
    if t == "int8" || t == "char" then Ok(SByte)
    else if t == "uint8" || t == "uchar" then Ok(Byte)
    else if t == "int16" || t == "short" then Ok(Short)
    else if t == "uint16" || t == "ushort" then Ok(UShort)
    else if t == "int32" || t == "int" then Ok(Int)
    else if t == "uint32" || t == "uint" then Ok(UInt)
    else if t == "float32" || t == "float" then Ok(Float)
    else if t == "float64" || t == "double" then Ok(Double)
    else Err(UnsupportedType)
  }

  /** Exactly the short and the long spelling of each kind are accepted (case-sensitive). */
  lemma PropertyTypeFromStringSpells(t: string, k: ScalarKind)
    ensures PropertyTypeFromString(t) == Ok(k) <==> t == Str(k) || t == LongName(k)
  {
    match k
    case SByte =>
    case Byte =>
    case Short =>
    case UShort =>
    case Int =>
    case UInt =>
    case Float =>
    case Double =>
  }

  /** The sixteen accepted tokens. */
  const AcceptedTokens: set<string> :=
    {"int8", "char", "uint8", "uchar", "int16", "short", "uint16", "ushort",
     "int32", "int", "uint32", "uint", "float32", "float", "float64", "double"}

  lemma AcceptsExactlySixteenTokens(t: string)
    ensures PropertyTypeFromString(t).Ok? <==> t in AcceptedTokens
  {
    if t in AcceptedTokens {
      assert t == Str(SByte) || t == LongName(SByte) || t == Str(Byte) || t == LongName(Byte)
        || t == Str(Short) || t == LongName(Short) || t == Str(UShort) || t == LongName(UShort)
        || t == Str(Int) || t == LongName(Int) || t == Str(UInt) || t == LongName(UInt)
        || t == Str(Float) || t == LongName(Float) || t == Str(Double) || t == LongName(Double);
    }
  }

  /** The writer's token read back gives the kind it was written for. */
  lemma TokenRoundTrip(k: ScalarKind)
    ensures PropertyTypeFromString(Str(k)) == Ok(k)
    ensures PropertyTypeFromString(LongName(k)) == Ok(k)
  {
  }

  /** The eight written tokens are pairwise distinct, so a written token names one kind. */
  lemma StrInjective(a: ScalarKind, b: ScalarKind)
    requires Str(a) == Str(b)
    ensures a == b
  {
    TokenRoundTrip(a);
    TokenRoundTrip(b);
  }

  /** Marshal.SizeOf agrees with the table: 1 byte for sbyte/byte, 2 for short/ushort,
      4 for int/uint/float and 8 for double. */
  lemma StrideValues(k: ScalarKind)
    ensures Stride(k) == (if k in {SByte, Byte} then 1
                          else if k in {Short, UShort} then 2
                          else if k == Double then 8 else 4)
  {
  }

  /** Helper.MakeKey(string, string): the element name, a dash, the property name. */
  function MakeKey(a: string, b: string): (r: string)
    ensures |r| == |a| + 1 + |b|
    ensures r[..|a|] == a && r[|a|] == '-' && r[|a| + 1..] == b
  {
    a + "-" + b
  }

  /** The key is unique (injective) when element names contain no dash. */
  lemma MakeKeyInjective(a1: string, b1: string, a2: string, b2: string)
    requires '-' !in a1 && '-' !in a2
    requires MakeKey(a1, b1) == MakeKey(a2, b2)
    ensures a1 == a2 && b1 == b2
  {
  }

  /** Without that condition the "unique key" is not unique: ("a-b", "c") and ("a", "b-c") share "a-b-c". */
  lemma MakeKeyCollides()
    ensures MakeKey("a-b", "c") == MakeKey("a", "b-c") && "a-b" != "a"
  {
    assert MakeKey("a-b", "c") == "a-b-c";
    assert MakeKey("a", "b-c") == "a-b-c";
  }
}
