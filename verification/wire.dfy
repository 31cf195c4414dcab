/** Vocabulary shared by every container codec: bytes, the error channel and
    the format tags a container record can start with. */
module Wire {

  newtype byte = x: int | 0 <= x < 256

  /** The errors this layer produces or passes through (a subset of the
      library's ErrorStatus). */
  datatype Error =
    | UnexpectedEncodingType
    | InvalidContainerLength
    | ReadLimitReached
    | WriteLimitReached

  /** Status<void>: success, or one discriminated error. */
  datatype Status = Ok | Fail(error: Error)

  /** Status<T>: a value, or one discriminated error. */
  datatype Result<T> = Success(value: T) | Failure(error: Error)

  /** Format tags. Only the two container tags matter here; every other tag
      value is some `Other`. */
  datatype EncodingByte = Array | Binary | Other(code: byte)

  /** Number of bytes the prefix of a container record occupies: the
      one-byte tag, with nothing else inline. */
  function BaseEncodingSize(prefix: EncodingByte): nat
    requires prefix == Array || prefix == Binary
  {
    1
  }

  /** Concatenation of a sequence of byte strings, in order. */
  function Flatten(pieces: seq<seq<byte>>): seq<byte>
  {
    if pieces == [] then [] else pieces[0] + Flatten(pieces[1..])
  }

  lemma {:induction false} FlattenAppend(a: seq<seq<byte>>, b: seq<seq<byte>>)
    ensures Flatten(a + b) == Flatten(a) + Flatten(b)
  {
    if a != [] {
      assert (a + b)[1..] == a[1..] + b;
      FlattenAppend(a[1..], b);
    } else {
      assert a + b == b;
    }
  }
}
