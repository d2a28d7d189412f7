/** The few pieces of the Java platform that the tag scanner leans on: the bytes
    of a mapped file, the exceptions the scanner lets escape, `ByteBuffer.wrap`
    and the ISO-8859-1 charset. */
module JavaRuntime {

  /** A byte of the file, as its unsigned value `b & 0xFF`.  Java bytes are
      signed: the source's comparisons with `0xFFFFFFFF` and `0xFFFFFFFE`
      (the ints -1 and -2) hold for the bytes 0xFF and 0xFE. */
  type Byte = b: int | 0 <= b < 0x100

  /** The largest value of a Java `int`. */
  const IntMax: int := 0x7FFF_FFFF

  /** The exceptions the scanner can raise, named after their Java classes. */
  datatype Exception =
    | IllegalStateException       // a synchsafe read below offset 3
    | IllegalArgumentException    // a buffer position outside [0, limit], an unknown enum name, a header query without a tag
    | BufferUnderflowException    // a relative read past the buffer's limit
    | IndexOutOfBoundsException   // `ByteBuffer.wrap` with an offset or a length outside the array
    | NullPointerException        // a null or empty attribute key

  datatype Option<+T> = None | Some(value: T)

  /** The outcome of a Java call: a value, or the exception it throws. */
  datatype Result<+T> = Ok(value: T) | Throw(exception: Exception) {
    predicate IsFailure() {
      Throw?
    }

    function PropagateFailure<U>(): Result<U>
      requires Throw?
    {
      Throw(exception)
    }

    function Extract(): T
      requires Ok?
    {
      value
    }
  }

  /** `ByteBuffer.wrap(array, offset, length)`: a view of `length` bytes of
      `bytes` starting at `offset` (a length, not an end offset). */
  function Wrap(bytes: seq<Byte>, offset: int, length: int): (r: Result<seq<Byte>>)
    ensures r.Ok? <==> 0 <= offset && 0 <= length && offset + length <= |bytes|
    ensures r.Ok? ==> |r.value| == length && forall i :: 0 <= i < length ==> r.value[i] == bytes[offset + i]
  {
    if offset < 0 || length < 0 || offset > |bytes| || length > |bytes| - offset then
      Throw(IndexOutOfBoundsException)
    else
      Ok(bytes[offset..offset + length])
  }

  /** ISO-8859-1 decoding: each byte is the character with the same code. */
  function Latin1Decode(bytes: seq<Byte>): (s: string)
    ensures |s| == |bytes| && forall i :: 0 <= i < |bytes| ==> s[i] as int == bytes[i]
  {
    seq(|bytes|, i requires 0 <= i < |bytes| => bytes[i] as char)
  }

  /** ISO-8859-1 encoding of a string whose characters are all below 256. */
  function Latin1Encode(s: string): (bytes: seq<Byte>)
    requires forall i :: 0 <= i < |s| ==> s[i] as int < 0x100
    ensures Latin1Decode(bytes) == s
  {
    seq(|s|, i requires 0 <= i < |s| => s[i] as int)
  }

  /** Decoding loses nothing: encoding the decoded string gives the bytes back. */
  lemma Latin1RoundTrip(bytes: seq<Byte>)
    ensures Latin1Encode(Latin1Decode(bytes)) == bytes
  {
  }
}
