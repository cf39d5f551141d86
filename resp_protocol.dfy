/** The values the decoder produces (`RespValue`). */
module RespProtocol {
  import opened Bytes
  import Utf8

  /** Exactly three variants; an array holds its elements in order and may nest without bound.
      Dafny's datatype equality is structural, as the derived `PartialEq`/`Eq` is.
      A payload is the byte content of a Rust `String`; `WellFormed` is the type's invariant. */
  datatype RespValue =
    | SimpleString(text: seq<byte>)
    | BulkString(text: seq<byte>)
    | Array(elements: seq<RespValue>)

  /** Every payload, at every depth, is valid UTF-8, as a Rust `String` always is. */
  predicate WellFormed(v: RespValue)
    decreases v
  {
    match v
    case SimpleString(t) => Utf8.Valid(t)
    case BulkString(t) => Utf8.Valid(t)
    case Array(vs) => AllWellFormed(vs)
  }

  predicate AllWellFormed(vs: seq<RespValue>)
    decreases vs
  {
    forall i :: 0 <= i < |vs| ==> WellFormed(vs[i])
  }
}
