/** Values exchanged between the block cache and its collaborators. */
module Types {

  /** The error values the block cache can return. `EOF` and `UnexpectedEOF` stand for
      `io.EOF` and `io.ErrUnexpectedEOF`; every other collaborator error is opaque. */
  datatype Error =
    | EOF
    | UnexpectedEOF
    | InvalidRange
    | Other(msg: string)

  /** What a bitmap access yields: a value, or Go's "index out of range" runtime panic. */
  datatype Guarded<T> = Value(v: T) | IndexOutOfRange

  /** The reply of the size-discovery collaborator `getSize`. */
  datatype SizeReply = SizeKnown | SizeError(err: Error)

  /** The reply of the ranged fetch `readUrl`: the requested bytes, or an error. */
  datatype FetchReply = Filled(data: seq<bv8>) | Refused(err: Error)

  /** The reply of a write on the backing store. */
  datatype WriteReply = Written | WriteFailed(err: Error)

  /** The collaborators of one call: the size reply, the fetch oracle (by byte offset and
      length) and the write oracle (by write position and length). */
  datatype Env = Env(
    sizeReply: SizeReply,
    fetch: (int, int) -> FetchReply,
    write: (int, int) -> WriteReply)

  /** The only contract of the fetch collaborator: a successful fetch of `n` bytes
      delivers exactly `n` bytes. */
  ghost predicate Honest(env: Env)
  {
    forall pos: int, n: int :: env.fetch(pos, n).Filled? ==> |env.fetch(pos, n).data| == n
  }

  /** One fetch issued by the range resolver: block index, byte offset, byte count. */
  datatype Request = Request(block: nat, offset: int, length: int)

  /** What the range resolver returns: nil, or an error. */
  datatype Outcome = Done | Failed(err: Error)

  /** The error mapping applied to a failed fetch: a premature end of data mid-range is
      reported as an unexpected end of data; any other error passes through unchanged. */
  function FetchError(err: Error): (r: Error)
    ensures r != EOF
    ensures err != EOF ==> r == err
    ensures err == EOF ==> r == UnexpectedEOF
  {
    if err == EOF then UnexpectedEOF else err
  }
}
