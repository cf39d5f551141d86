/** The streaming decoder: a cursor over the reader's output, advanced by every read. */
module RespDecoder {
  import opened Bytes
  import opened Wrappers
  import opened RespProtocol
  import opened DecoderSpec
  import Utf8
  import UsizeParse

  class Decoder {
    /** Everything successive `next()` calls on the reader would yield, in order. */
    const stream: seq<ReadResult>
    /** How many of them have been consumed: the shared read cursor. */
    var pos: nat

    ghost predicate Valid()
      reads this
    {
      pos <= |stream|
    }

    /** `Decoder::new`. */
    constructor (stream: seq<ReadResult>)
      ensures Valid() && this.stream == stream && pos == 0
    {
      this.stream := stream;
      pos := 0;
    }

    /** `self.iter.next()`: the next item, or `None` (cursor unmoved) at the end of the stream. */
    method ReadNext() returns (r: Option<ReadResult>)
      requires Valid()
      modifies this
      ensures Valid()
      ensures old(pos) < |stream| ==> r == Some(stream[old(pos)]) && pos == old(pos) + 1
      ensures old(pos) == |stream| ==> r == None && pos == old(pos)
    {
      if pos == |stream| {
        r := None;
      } else {
        r := Some(stream[pos]);
        pos := pos + 1;
      }
    }

    /** `self.iter.next().ok_or(anyhow!(..))??`: the next byte, with `missing` at the end of the stream. */
    method NextByte(missing: DecodeError) returns (r: Result<byte, DecodeError>)
      requires Valid()
      modifies this
      ensures Valid() && Decoded(r, pos) == ByteAt(stream, old(pos), missing)
    {
      var item := ReadNext();
      if item.None? {
        return Err(missing);
      }
      if item.value.IoError? {
        return Err(Io);
      }
      r := Ok(item.value.value);
    }

    method Decode(magic: byte) returns (r: Result<RespValue, DecodeError>)
      requires Valid()
      modifies this
      ensures Valid() && Decoded(r, pos) == DecodeValue(stream, magic, old(pos))
      decreases |stream| - pos, 3
    {
      if magic == PLUS {
        r := DecodeSimpleString();
      } else if magic == DOLLAR {
        r := DecodeBulkString();
      } else if magic == STAR {
        r := DecodeArray();
      } else {
        r := Err(InvalidMagic(magic));
      }
    }

    method DecodeSimpleString() returns (r: Result<RespValue, DecodeError>)
      requires Valid()
      modifies this
      ensures Valid() && Decoded(r, pos) == SimpleStringAt(stream, old(pos))
    {
      var line := ReadCrlfTerminatedString();
      if line.Err? {
        return Err(line.error);
      }
      r := Ok(SimpleString(line.value));
    }

    method DecodeBulkString() returns (r: Result<RespValue, DecodeError>)
      requires Valid()
      modifies this
      ensures Valid() && Decoded(r, pos) == BulkStringAt(stream, old(pos))
    {
      var line := ReadCrlfTerminatedString();
      if line.Err? {
        return Err(line.error);
      }
      var parsed := UsizeParse.ParseUsize(line.value);
      if parsed.None? {
        return Err(InvalidInteger);
      }
      var n := parsed.value;
      ghost var start := pos;
      assert LengthAt(stream, old(pos)) == Decoded(Ok(n), start);
      var payload: seq<byte> := [];
      for i := 0 to n
        invariant Valid() && start <= pos
        invariant Payload(stream, start, n) == Prepend(payload, Payload(stream, pos, n - i))
      {
        ghost var q := pos;
        var b := NextByte(MissingBulkData);
        if b.Err? {
          return Err(b.error);
        }
        PayloadLoopStep(stream, start, n, payload, q, n - i, b.value);
        payload := payload + [b.value];
      }
      assert Payload(stream, pos, 0) == Decoded(Ok([]), pos);
      assert payload + [] == payload;
      assert Payload(stream, start, n) == Decoded(Ok(payload), pos);
      // the two bytes after the payload are consumed unchecked, and may be missing
      ghost var payloadEnd := pos;
      var cr := ReadNext();
      var lf := ReadNext();
      assert pos == Skip(stream, payloadEnd, 2);
      if !Utf8.Valid(payload) {
        return Err(InvalidUtf8);
      }
      r := Ok(BulkString(payload));
    }

    method DecodeArray() returns (r: Result<RespValue, DecodeError>)
      requires Valid()
      modifies this
      ensures Valid() && Decoded(r, pos) == ArrayAt(stream, old(pos))
      decreases |stream| - pos, 2
    {
      var line := ReadCrlfTerminatedString();
      if line.Err? {
        return Err(line.error);
      }
      var parsed := UsizeParse.ParseUsize(line.value);
      if parsed.None? {
        return Err(InvalidInteger);
      }
      var n := parsed.value;
      assert ArrayAt(stream, old(pos)) == ArrayOf(Elements(stream, pos, n));
      var elements := DecodeElements(n);
      if elements.Err? {
        return Err(elements.error);
      }
      r := Ok(Array(elements.value));
    }

    /** The `for _ in 0..n` loop of `decode_array`: each element is read from its own marker. */
    method DecodeElements(n: nat) returns (r: Result<seq<RespValue>, DecodeError>)
      requires Valid()
      modifies this
      ensures Valid() && Decoded(r, pos) == Elements(stream, old(pos), n)
      decreases |stream| - pos, 1
    {
      var elements: seq<RespValue> := [];
      for i := 0 to n
        invariant Valid() && old(pos) <= pos
        invariant Elements(stream, old(pos), n) == Prepend(elements, Elements(stream, pos, n - i))
      {
        ghost var q := pos;
        var magic := NextByte(MissingArrayElement);
        if magic.Err? {
          return Err(magic.error);
        }
        var element := Decode(magic.value);
        if element.Err? {
          return Err(element.error);
        }
        ElementsLoopStep(stream, old(pos), n, elements, q, n - i, magic.value, element, pos);
        elements := elements + [element.value];
      }
      assert Elements(stream, pos, 0) == Decoded(Ok([]), pos);
      assert elements + [] == elements;
      r := Ok(elements);
    }

    method ReadCrlfTerminatedString() returns (r: Result<seq<byte>, DecodeError>)
      requires Valid()
      modifies this
      ensures Valid() && Decoded(r, pos) == ReadLine(stream, old(pos))
    {
      var buffer: seq<byte> := [];
      while true
        invariant Valid() && old(pos) <= pos
        invariant LineScan(stream, pos, buffer) == LineScan(stream, old(pos), [])
        decreases |stream| - pos
      {
        var item := ReadNext();
        if item.None? {
          return Err(IncompleteString);
        }
        if item.value.IoError? {
          return Err(Io);
        }
        buffer := buffer + [item.value.value];
        var n := |buffer|;
        if n >= 2 && buffer[n - 2] == CR && buffer[n - 1] == LF {
          buffer := buffer[..n - 2];
          if !Utf8.Valid(buffer) {
            return Err(InvalidUtf8);
          }
          return Ok(buffer);
        }
      }
    }

    /** `Iterator::next`: one value per call, `None` only at a clean end of stream. */
    method Next() returns (r: Option<Result<RespValue, DecodeError>>)
      requires Valid()
      modifies this
      ensures Valid()
      ensures DecoderSpec.Next(stream, old(pos)) == if r.None? then None else Some(Decoded(r.value, pos))
      ensures r.None? ==> pos == old(pos)
    {
      var first := ReadNext();
      if first.None? {
        return None;
      }
      match first.value
      case IoError =>
        r := Some(Err(Io));
      case Byte(magic) =>
        var v := Decode(magic);
        r := Some(v);
    }
  }
}
