/** The decoder as pure functions of the stream and a cursor: the reference the `Decoder` class is proved against. */
module DecoderSpec {
  import opened Bytes
  import opened Wrappers
  import opened RespProtocol
  import Utf8
  import UsizeParse

  /** What one call of `Bytes::next()` yields when it yields something. */
  datatype ReadResult = Byte(value: byte) | IoError

  /** The errors the decoder reports, one per kind of `bail!`/`anyhow!`/`?` site. */
  datatype DecodeError =
    | InvalidMagic(magic: byte)   // unrecognised type marker
    | IncompleteString            // stream ended before "\r\n"
    | MissingBulkData             // stream ended inside a bulk payload
    | MissingArrayElement         // stream ended before an element's marker
    | InvalidUtf8                 // `String::from_utf8` failed
    | InvalidInteger              // `parse::<usize>` failed
    | Io                          // the reader reported an I/O error

  /** The outcome of one read operation and where it leaves the cursor, on success and on error alike. */
  datatype Decoded<+T> = Decoded(result: Result<T, DecodeError>, end: nat)

  /** Puts `xs` in front of a successful result; errors pass through. */
  function Prepend<T>(xs: seq<T>, d: Decoded<seq<T>>): (r: Decoded<seq<T>>)
    ensures r.end == d.end && r.result.Ok? == d.result.Ok?
    ensures xs == [] ==> r == d
  {
    match d.result
    case Ok(ys) => assert [] + ys == ys; Decoded(Ok(xs + ys), d.end)
    case Err(e) => d
  }

  lemma PrependPrepend<T>(xs: seq<T>, ys: seq<T>, d: Decoded<seq<T>>)
    ensures Prepend(xs, Prepend(ys, d)) == Prepend(xs + ys, d)
  {
    if d.result.Ok? {
      assert xs + (ys + d.result.value) == (xs + ys) + d.result.value;
    }
  }

  /** The stream of a reader over an in-memory buffer (`&[u8]`), which never fails. */
  function FromBytes(t: seq<byte>): (s: seq<ReadResult>)
    ensures |s| == |t| && forall i :: 0 <= i < |t| ==> s[i] == Byte(t[i])
  {
    seq(|t|, i requires 0 <= i < |t| => Byte(t[i]))
  }

  /** Bytes `t` stand in the stream from position `p` on. */
  predicate BytesAt(s: seq<ReadResult>, p: nat, t: seq<byte>) {
    p + |t| <= |s| && forall i :: 0 <= i < |t| ==> s[p + i] == Byte(t[i])
  }

  // ---------------------------------------------------------------- lines

  /** The loop of `read_crcf_terminated_string`: `buf` holds the bytes read so far in this call and `q` is the cursor. */
  function LineScan(s: seq<ReadResult>, q: nat, buf: seq<byte>): (d: Decoded<seq<byte>>)
    requires q <= |s|
    ensures q <= d.end <= |s|
    decreases |s| - q
  {
    if q == |s| then Decoded(Err(IncompleteString), q)
    else match s[q]
      case IoError => Decoded(Err(Io), q + 1)
      case Byte(b) =>
        var grown := buf + [b];
        if EndsWithCrlf(grown) then Decoded(Ok(grown[..|grown| - 2]), q + 1)
        else LineScan(s, q + 1, grown)
  }

  /** `read_crcf_terminated_string`: the bytes before the first "\r\n", checked to be UTF-8. */
  function ReadLine(s: seq<ReadResult>, p: nat): (d: Decoded<seq<byte>>)
    requires p <= |s|
    ensures p <= d.end <= |s|
  {
    var line := LineScan(s, p, []);
    match line.result
    case Err(e) => Decoded(Err(e), line.end)
    case Ok(t) => if Utf8.Valid(t) then Decoded(Ok(t), line.end) else Decoded(Err(InvalidUtf8), line.end)
  }

  /** `read_crcf_terminated_string()?.parse::<usize>()?`, the length or count prefix. */
  function LengthAt(s: seq<ReadResult>, p: nat): (d: Decoded<nat>)
    requires p <= |s|
    ensures p <= d.end <= |s|
  {
    var line := ReadLine(s, p);
    match line.result
    case Err(e) => Decoded(Err(e), line.end)
    case Ok(t) =>
      match UsizeParse.ParseUsize(t)
      case None => Decoded(Err(InvalidInteger), line.end)
      case Some(n) => Decoded(Ok(n), line.end)
  }

  // ---------------------------------------------------------------- values

  /** `self.iter.next().ok_or(anyhow!(..))??`: one byte, or `missing` at the end of the stream. */
  function ByteAt(s: seq<ReadResult>, q: nat, missing: DecodeError): (d: Decoded<byte>)
    requires q <= |s|
    ensures q <= d.end <= |s|
    ensures d.result.Ok? <==> q < |s| && s[q].Byte?
    ensures d.result.Ok? ==> s[q] == Byte(d.result.value) && d.end == q + 1
    ensures d.result.Err? ==> d.result.error == (if q == |s| then missing else Io)
  {
    if q == |s| then Decoded(Err(missing), q)
    else match s[q]
      case IoError => Decoded(Err(Io), q + 1)
      case Byte(b) => Decoded(Ok(b), q + 1)
  }

  /** The `for _ in 0..n` loop of `decode_bulk_string`: `k` more payload bytes. */
  function Payload(s: seq<ReadResult>, q: nat, k: nat): (d: Decoded<seq<byte>>)
    requires q <= |s|
    ensures q <= d.end <= |s|
    ensures d.result.Ok? ==> |d.result.value| == k
    decreases k
  {
    if k == 0 then Decoded(Ok([]), q)
    else
      var b := ByteAt(s, q, MissingBulkData);
      match b.result
      case Err(e) => Decoded(Err(e), b.end)
      case Ok(x) => Prepend([x], Payload(s, b.end, k - 1))
  }

  /** Where `n` calls of `next()` leave the cursor, whatever they yield. */
  function Skip(s: seq<ReadResult>, q: nat, n: nat): (e: nat)
    requires q <= |s|
    ensures q <= e <= |s|
    ensures q + n <= |s| ==> e == q + n
    ensures q + n > |s| ==> e == |s|
  {
    if q + n <= |s| then q + n else |s|
  }

  /** `decode_simple_string`, after the marker. */
  function SimpleStringAt(s: seq<ReadResult>, p: nat): (d: Decoded<RespValue>)
    requires p <= |s|
    ensures p <= d.end <= |s|
  {
    var line := ReadLine(s, p);
    match line.result
    case Err(e) => Decoded(Err(e), line.end)
    case Ok(t) => Decoded(Ok(SimpleString(t)), line.end)
  }

  /** The payload of a bulk string and the two unchecked items after it. */
  function PayloadThenSkip(s: seq<ReadResult>, q: nat, n: nat): (d: Decoded<seq<byte>>)
    requires q <= |s|
    ensures q <= d.end <= |s|
  {
    var payload := Payload(s, q, n);
    match payload.result
    case Err(e) => payload
    case Ok(t) => Decoded(Ok(t), Skip(s, payload.end, 2))
  }

  /** `decode_bulk_string`, after the marker. */
  function BulkStringAt(s: seq<ReadResult>, p: nat): (d: Decoded<RespValue>)
    requires p <= |s|
    ensures p <= d.end <= |s|
  {
    var len := LengthAt(s, p);
    match len.result
    case Err(e) => Decoded(Err(e), len.end)
    case Ok(n) =>
      var payload := PayloadThenSkip(s, len.end, n);
      match payload.result
      case Err(e) => Decoded(Err(e), payload.end)
      case Ok(t) =>
        if Utf8.Valid(t) then Decoded(Ok(BulkString(t)), payload.end) else Decoded(Err(InvalidUtf8), payload.end)
  }

  /** `decode`, after the marker byte `magic` has been read. */
  function DecodeValue(s: seq<ReadResult>, magic: byte, p: nat): (d: Decoded<RespValue>)
    requires p <= |s|
    ensures p <= d.end <= |s|
    decreases |s| - p, 2
  {
    if magic == PLUS then SimpleStringAt(s, p)
    else if magic == DOLLAR then BulkStringAt(s, p)
    else if magic == STAR then ArrayAt(s, p)
    else Decoded(Err(InvalidMagic(magic)), p)
  }

  /** `decode_array`, after the marker. */
  function ArrayAt(s: seq<ReadResult>, p: nat): (d: Decoded<RespValue>)
    requires p <= |s|
    ensures p <= d.end <= |s|
    decreases |s| - p, 1
  {
    var len := LengthAt(s, p);
    match len.result
    case Err(e) => Decoded(Err(e), len.end)
    case Ok(n) => ArrayOf(Elements(s, len.end, n))
  }

  /** `Ok(RespValue::Array(elements))` once the loop has finished. */
  function ArrayOf(d: Decoded<seq<RespValue>>): (r: Decoded<RespValue>)
    ensures r.end == d.end && r.result.Ok? == d.result.Ok?
    ensures r.result.Ok? ==> r.result.value == Array(d.result.value)
    ensures r.result.Err? ==> r.result.error == d.result.error
  {
    match d.result
    case Err(e) => Decoded(Err(e), d.end)
    case Ok(vs) => Decoded(Ok(Array(vs)), d.end)
  }

  /** The `for _ in 0..n` loop of `decode_array`: `k` more elements, each read from its own marker. */
  function Elements(s: seq<ReadResult>, q: nat, k: nat): (d: Decoded<seq<RespValue>>)
    requires q <= |s|
    ensures q <= d.end <= |s|
    ensures d.result.Ok? ==> |d.result.value| == k
    ensures d.result.Ok? ==> d.end >= q + k
    decreases |s| - q, 0
  {
    if k == 0 then Decoded(Ok([]), q)
    else
      var m := ByteAt(s, q, MissingArrayElement);
      match m.result
      case Err(e) => Decoded(Err(e), m.end)
      case Ok(magic) =>
        var first := DecodeValue(s, magic, m.end);
        match first.result
        case Err(e) => Decoded(Err(e), first.end)
        case Ok(v) => Prepend([v], Elements(s, first.end, k - 1))
  }

  /** One element read successfully: the rest of the loop goes on from where it stopped. */
  lemma ElementsStep(s: seq<ReadResult>, q: nat, k: nat, magic: byte, r: Result<RespValue, DecodeError>, e: nat)
    requires 0 < k && q < |s| && s[q] == Byte(magic)
    requires Decoded(r, e) == DecodeValue(s, magic, q + 1) && r.Ok?
    ensures Elements(s, q, k) == Prepend([r.value], Elements(s, e, k - 1))
  {
  }

  /** The loop invariant of `decode_array` carried over one element. */
  lemma ElementsLoopStep(s: seq<ReadResult>, p: nat, n: nat, acc: seq<RespValue>, q: nat, k: nat,
                         magic: byte, r: Result<RespValue, DecodeError>, e: nat)
    requires q <= |s| && p <= |s|
    requires Elements(s, p, n) == Prepend(acc, Elements(s, q, k))
    requires 0 < k && q < |s| && s[q] == Byte(magic)
    requires Decoded(r, e) == DecodeValue(s, magic, q + 1) && r.Ok?
    ensures Elements(s, p, n) == Prepend(acc + [r.value], Elements(s, e, k - 1))
  {
    ElementsStep(s, q, k, magic, r, e);
    PrependPrepend(acc, [r.value], Elements(s, e, k - 1));
  }

  /** One payload byte read successfully. */
  lemma PayloadStep(s: seq<ReadResult>, q: nat, k: nat, b: byte)
    requires 0 < k && q < |s| && s[q] == Byte(b)
    ensures Payload(s, q, k) == Prepend([b], Payload(s, q + 1, k - 1))
  {
  }

  /** The loop invariant of `decode_bulk_string` carried over one byte. */
  lemma PayloadLoopStep(s: seq<ReadResult>, p: nat, n: nat, acc: seq<byte>, q: nat, k: nat, b: byte)
    requires q <= |s| && p <= |s|
    requires Payload(s, p, n) == Prepend(acc, Payload(s, q, k))
    requires 0 < k && q < |s| && s[q] == Byte(b)
    ensures Payload(s, p, n) == Prepend(acc + [b], Payload(s, q + 1, k - 1))
  {
    PayloadStep(s, q, k, b);
    PrependPrepend(acc, [b], Payload(s, q + 1, k - 1));
  }

  // ---------------------------------------------------------------- the iterator

  /** `Iterator::next`: `None` exactly when the stream is exhausted at the start of the attempt. */
  function Next(s: seq<ReadResult>, p: nat): (r: Option<Decoded<RespValue>>)
    requires p <= |s|
    ensures r.None? <==> p == |s|
    ensures r.Some? ==> p < r.value.end <= |s|
    ensures p < |s| && s[p] == IoError ==> r == Some(Decoded(Err(Io), p + 1))
  {
    if p == |s| then None
    else match s[p]
      case IoError => Some(Decoded(Err(Io), p + 1))
      case Byte(magic) => Some(DecodeValue(s, magic, p + 1))
  }

  /** What a consumer sees pulling values until `next()` returns `None`; an error does not stop the iterator. */
  function Pulls(s: seq<ReadResult>, p: nat): (rs: seq<Result<RespValue, DecodeError>>)
    requires p <= |s|
    ensures |rs| <= |s| - p
    decreases |s| - p
  {
    match Next(s, p)
    case None => []
    case Some(d) => [d.result] + Pulls(s, d.end)
  }
}
