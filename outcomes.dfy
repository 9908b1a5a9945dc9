/** The exceptions the library throws, as values, and the result type that carries them. */
module Outcomes {

  /** One constructor per exception the core can raise (the .NET exception type is named in each comment). */
  datatype PlyError =
    | UnsupportedType          // NotSupportedException: unknown type token
    | InvalidHeader            // Exception "invalid header": unknown first word of a header line
    | BigEndianNotSupported    // NotSupportedException: format binary_big_endian
    | NoCurrentElement         // InvalidOperationException: Elements.Last() on an empty list
    | BadElementCount          // FormatException / OverflowException from int.Parse
    | HeaderNotTerminated      // no end_header line in the input (the source reads on forever)
    | WrongType                // Exception "destination vector is wrongly typed ..."
    | AlreadyRequested         // Exception "property has already been requested"
    | ElementExists            // ArgumentException "already exist property key"
    | DivideByZero             // DivideByZeroException: an empty list of property names
    | SumOverflow              // OverflowException from the checked Enumerable.Sum
    | MalformedData            // FormatException from Convert.ChangeType on a text token
    | CountOverflow            // OverflowException from Convert.ToUInt32 on a list count
    | NullBuffer               // NullReferenceException: a cursor whose vector was never set
    | WrongBufferType          // ArgumentException from IList.Add: value of the wrong type
    | KeyNotFound              // KeyNotFoundException: writing a property that has no binding
    | ListNeedsMultivector     // NotSupportedException: list property written from flat data
    | IndexOutOfRange          // ArgumentOutOfRangeException: bound data shorter than the schema
    | BinaryNotImplemented     // NotImplementedException: binary write

  datatype Result<+T> = Ok(value: T) | Err(error: PlyError) {
    predicate IsFailure() { Err? }

    function PropagateFailure<U>(): Result<U>
      requires Err?
    {
      Err(error)
    }

    function Extract(): T
      requires Ok?
    {
      value
    }
  }

  datatype Option<+T> = None | Some(value: T)

  /** Sequence identities, proved here on their own so that larger proofs can cite them. */
  lemma EmptyAppend<T>(s: seq<T>)
    ensures [] + s == s
  {
  }

  lemma ConsFirst<T>(s: seq<T>)
    requires s != []
    ensures [s[0]] + s[1..] == s
  {
  }

  lemma AppendEmpty<T>(s: seq<T>)
    ensures s + [] == s
  {
  }

  lemma AppendAssoc<T>(a: seq<T>, b: seq<T>, c: seq<T>)
    ensures a + (b + c) == a + b + c
  {
  }

  lemma AppendOne<T>(a: seq<T>, x: T, b: seq<T>)
    ensures a + ([x] + b) == a + [x] + b
  {
  }

  lemma SplitLast<T>(s: seq<T>)
    requires s != []
    ensures s[..|s| - 1] + [s[|s| - 1]] == s
  {
  }

  lemma TakeOneMore<T>(s: seq<T>, m: nat)
    requires m < |s|
    ensures s[..m + 1][..m] == s[..m] && s[..m + 1][m] == s[m]
    ensures s[..m + 1] == s[..m] + [s[m]]
  {
  }

  lemma TakeAll<T>(s: seq<T>)
    ensures s[..|s|] == s
  {
  }

  lemma AppendLast<T>(xs: seq<T>, ys: seq<T>)
    requires ys != []
    ensures xs + ys[..|ys| - 1] + [ys[|ys| - 1]] == xs + ys
  {
    assert ys[..|ys| - 1] + [ys[|ys| - 1]] == ys;
  }

  lemma DropThenTake<T>(s: seq<T>, k: nat, n: nat)
    requires k + n <= |s|
    ensures s[k..][..n] == s[k..k + n]
  {
  }

  lemma DropThenDrop<T>(s: seq<T>, k: nat, n: nat)
    requires k + n <= |s|
    ensures s[k..][n..] == s[k + n..]
  {
  }

  lemma TakeTake<T>(s: seq<T>, a: nat, b: nat)
    requires a <= b <= |s|
    ensures s[..b][..a] == s[..a]
  {
  }
}
