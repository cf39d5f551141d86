/** RESP2 wire encoding of a value: the inverse the decoder is checked against. */
module RespEncoder {
  import opened Bytes
  import opened RespProtocol
  import UsizeParse
  import Utf8

  /** A type-marker byte followed by `body` and the terminator. */
  function Line(marker: byte, body: seq<byte>): seq<byte> {
    [marker] + body + CRLF
  }

  function Encode(v: RespValue): (e: seq<byte>)
    ensures |e| >= 3
    decreases v
  {
    match v
    case SimpleString(t) => Line(PLUS, t)
    case BulkString(t) => Line(DOLLAR, UsizeParse.Decimal(|t|)) + t + CRLF
    case Array(vs) => Line(STAR, UsizeParse.Decimal(|vs|)) + EncodeAll(vs)
  }

  /** The encodings of `vs`, back to back. */
  function EncodeAll(vs: seq<RespValue>): seq<byte>
    decreases vs
  {
    if vs == [] then [] else Encode(vs[0]) + EncodeAll(vs[1..])
  }

  /** The values the wire format can carry: valid UTF-8 payloads (as a Rust `String` holds),
      no terminator inside a simple string, and every length and count within `usize`. */
  predicate Encodable(v: RespValue)
    decreases v
  {
    match v
    case SimpleString(t) => NoCrlf(t) && Utf8.Valid(t)
    case BulkString(t) => |t| <= UsizeParse.USIZE_MAX && Utf8.Valid(t)
    case Array(vs) => |vs| <= UsizeParse.USIZE_MAX && AllEncodable(vs)
  }

  predicate AllEncodable(vs: seq<RespValue>)
    decreases vs
  {
    forall i :: 0 <= i < |vs| ==> Encodable(vs[i])
  }
}
