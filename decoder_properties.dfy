/** What the decoder promises: line reading, framing of each variant, errors, and the round trip with the encoder. */
module DecoderProperties {
  import opened Bytes
  import opened Wrappers
  import opened RespProtocol
  import opened DecoderSpec
  import opened RespEncoder
  import Utf8
  import UsizeParse

  // ---------------------------------------------------------------- placing bytes in the stream

  lemma BytesAtConcat(s: seq<ReadResult>, p: nat, a: seq<byte>, b: seq<byte>)
    ensures BytesAt(s, p, a + b) <==> BytesAt(s, p, a) && BytesAt(s, p + |a|, b)
  {
    if BytesAt(s, p, a + b) {
      forall i | 0 <= i < |a| ensures s[p + i] == Byte(a[i]) {
        assert (a + b)[i] == a[i];
      }
      forall i | 0 <= i < |b| ensures s[p + |a| + i] == Byte(b[i]) {
        assert (a + b)[|a| + i] == b[i];
      }
    }
    if BytesAt(s, p, a) && BytesAt(s, p + |a|, b) {
      forall i | 0 <= i < |a + b| ensures s[p + i] == Byte((a + b)[i]) {
        if i >= |a| {
          assert s[p + |a| + (i - |a|)] == Byte(b[i - |a|]);
        }
      }
    }
  }

  lemma BytesAtFromBytes(t: seq<byte>, rest: seq<ReadResult>)
    ensures BytesAt(FromBytes(t) + rest, 0, t)
  {
    var s := FromBytes(t) + rest;
    forall i | 0 <= i < |t| ensures s[0 + i] == Byte(t[i]) {
      assert s[i] == FromBytes(t)[i];
    }
  }

  // ---------------------------------------------------------------- read_crcf_terminated_string

  lemma NoCrlfGrow(buf: seq<byte>, b: byte)
    requires NoCrlf(buf) && !EndsWithCrlf(buf + [b])
    ensures NoCrlf(buf + [b])
  {
    var g := buf + [b];
    forall i | 0 <= i < |g| - 1 ensures !(g[i] == CR && g[i + 1] == LF) {
      if i < |buf| - 1 {
        assert g[i] == buf[i] && g[i + 1] == buf[i + 1];
      }
    }
  }

  /** Scanning a stream that holds `line` and then "\r\n", from any point inside the line,
      stops just past the "\r\n" with `line` as the result. */
  lemma {:induction false} ScanFindsTerminator(s: seq<ReadResult>, p: nat, line: seq<byte>, q: nat)
    requires BytesAt(s, p, line + CRLF) && NoCrlf(line)
    requires p <= q <= p + |line| + 1
    ensures LineScan(s, q, (line + CRLF)[..q - p]) == Decoded(Ok(line), p + |line| + 2)
    decreases p + |line| + 1 - q
  {
    var full := line + CRLF;
    var buf := full[..q - p];
    assert s[p + (q - p)] == Byte(full[q - p]);
    var grown := buf + [full[q - p]];
    assert grown == full[..q - p + 1];
    if q == p + |line| + 1 {
      assert grown == full;
      assert grown[..|grown| - 2] == line;
    } else {
      assert !EndsWithCrlf(grown) by {
        if q - p < |line| {
          assert grown[|grown| - 1] == line[q - p];
          if |grown| >= 2 {
            assert grown[|grown| - 2] == line[q - p - 1];
          }
        } else {
          assert grown[|grown| - 1] == CR;
        }
      }
      ScanFindsTerminator(s, p, line, q + 1);
    }
  }

  /** A line with no "\r\n" in it, followed by "\r\n", is read back whole, and the cursor lands just past the "\n". */
  lemma ReadLineOfLine(s: seq<ReadResult>, p: nat, line: seq<byte>)
    requires BytesAt(s, p, line + CRLF) && NoCrlf(line)
    ensures ReadLine(s, p) == if Utf8.Valid(line) then Decoded(Ok(line), p + |line| + 2)
                              else Decoded(Err(InvalidUtf8), p + |line| + 2)
  {
    assert (line + CRLF)[..0] == [];
    ScanFindsTerminator(s, p, line, p);
  }

  /** Whatever the scan returns as a line stood in the stream before a "\r\n", and held no "\r\n" itself. */
  lemma {:induction false} ScanSound(s: seq<ReadResult>, q: nat, buf: seq<byte>)
    requires q <= |s| && |buf| <= q
    requires BytesAt(s, q - |buf|, buf) && NoCrlf(buf)
    ensures var d := LineScan(s, q, buf);
            d.result.Ok? ==>
              && d.end == q - |buf| + |d.result.value| + 2
              && BytesAt(s, q - |buf|, d.result.value + CRLF)
              && NoCrlf(d.result.value)
    decreases |s| - q
  {
    if q < |s| && s[q].Byte? {
      var p := q - |buf|;
      var grown := buf + [s[q].value];
      assert BytesAt(s, p, grown) by {
        assert BytesAt(s, p + |buf|, [s[q].value]);
        BytesAtConcat(s, p, buf, [s[q].value]);
      }
      if EndsWithCrlf(grown) {
        var line := grown[..|grown| - 2];
        assert grown == line + CRLF;
        forall i | 0 <= i < |line| - 1 ensures !(line[i] == CR && line[i + 1] == LF) {
          assert line[i] == buf[i] && line[i + 1] == buf[i + 1];
        }
      } else {
        NoCrlfGrow(buf, s[q].value);
        ScanSound(s, q + 1, grown);
      }
    }
  }

  /** A successful read returns exactly the bytes before the first "\r\n" of the stream, without the terminator,
      and leaves the cursor just past it. */
  lemma ReadLineSound(s: seq<ReadResult>, p: nat)
    requires p <= |s|
    ensures var d := ReadLine(s, p);
            d.result.Ok? ==>
              && d.end == p + |d.result.value| + 2
              && BytesAt(s, p, d.result.value + CRLF)
              && NoCrlf(d.result.value)
  {
    ScanSound(s, p, []);
  }

  lemma {:induction false} ScanIncomplete(s: seq<ReadResult>, p: nat, t: seq<byte>, q: nat)
    requires BytesAt(s, p, t) && p + |t| == |s| && NoCrlf(t)
    requires p <= q <= |s|
    ensures LineScan(s, q, t[..q - p]) == Decoded(Err(IncompleteString), |s|)
    decreases |s| - q
  {
    if q < |s| {
      assert s[p + (q - p)] == Byte(t[q - p]);
      var grown := t[..q - p] + [t[q - p]];
      assert grown == t[..q - p + 1];
      assert !EndsWithCrlf(grown) by {
        if |grown| >= 2 {
          assert grown[|grown| - 2] == t[q - p - 1] && grown[|grown| - 1] == t[q - p];
        }
      }
      ScanIncomplete(s, p, t, q + 1);
    }
  }

  /** A stream that ends before any "\r\n" gives "incomplete string", having consumed everything. */
  lemma ReadLineIncomplete(s: seq<ReadResult>, p: nat, t: seq<byte>)
    requires BytesAt(s, p, t) && p + |t| == |s| && NoCrlf(t)
    ensures ReadLine(s, p) == Decoded(Err(IncompleteString), |s|)
  {
    assert t[..0] == [];
    ScanIncomplete(s, p, t, p);
  }

  // ---------------------------------------------------------------- length and count prefixes

  /** A prefix line is read, checked to be UTF-8, and parsed as a `usize`; each failure has its own error. */
  lemma LengthOfLine(s: seq<ReadResult>, p: nat, line: seq<byte>)
    requires BytesAt(s, p, line + CRLF) && NoCrlf(line)
    ensures LengthAt(s, p).end == p + |line| + 2
    ensures LengthAt(s, p).result ==
              if !Utf8.Valid(line) then Err(InvalidUtf8)
              else if UsizeParse.ParseUsize(line).None? then Err(InvalidInteger)
              else Ok(UsizeParse.ParseUsize(line).value)
  {
    ReadLineOfLine(s, p, line);
  }

  /** A prefix line that parses is a well-formed line: it has no terminator in it and is ASCII. */
  lemma ParsedLine(line: seq<byte>)
    requires UsizeParse.ParseUsize(line).Some?
    ensures NoCrlf(line) && Utf8.Valid(line)
  {
    UsizeParse.ParsedIsAscii(line);
    Utf8.AsciiIsValid(line);
  }

  lemma LengthParsed(s: seq<ReadResult>, p: nat, line: seq<byte>, n: nat)
    requires BytesAt(s, p, line + CRLF) && UsizeParse.ParseUsize(line) == Some(n)
    ensures LengthAt(s, p) == Decoded(Ok(n), p + |line| + 2)
  {
    ParsedLine(line);
    LengthOfLine(s, p, line);
  }

  // ---------------------------------------------------------------- bulk strings

  lemma {:induction false} PayloadOfBytes(s: seq<ReadResult>, q: nat, t: seq<byte>)
    requires BytesAt(s, q, t)
    ensures Payload(s, q, |t|) == Decoded(Ok(t), q + |t|)
    decreases |t|
  {
    if t != [] {
      assert s[q + 0] == Byte(t[0]);
      assert BytesAt(s, q + 1, t[1..]) by {
        forall i | 0 <= i < |t[1..]| ensures s[q + 1 + i] == Byte(t[1..][i]) {
          assert s[q + (i + 1)] == Byte(t[i + 1]);
        }
      }
      PayloadOfBytes(s, q + 1, t[1..]);
      assert [t[0]] + t[1..] == t;
    }
  }

  lemma {:induction false} PayloadTruncated(s: seq<ReadResult>, q: nat, t: seq<byte>, k: nat)
    requires BytesAt(s, q, t) && q + |t| == |s| && |t| < k
    ensures Payload(s, q, k) == Decoded(Err(MissingBulkData), |s|)
    decreases |t|
  {
    if t != [] {
      assert s[q + 0] == Byte(t[0]);
      assert BytesAt(s, q + 1, t[1..]) by {
        forall i | 0 <= i < |t[1..]| ensures s[q + 1 + i] == Byte(t[1..][i]) {
          assert s[q + (i + 1)] == Byte(t[i + 1]);
        }
      }
      PayloadTruncated(s, q + 1, t[1..], k - 1);
    }
  }

  /** After a length line declaring `|t|`, a bulk string reads exactly the `|t|` payload bytes that follow,
      then consumes up to two more items whatever they are (an I/O error among them is ignored, and so is
      their absence); the payload becomes the value when it is valid UTF-8. */
  lemma BulkStringFraming(s: seq<ReadResult>, p: nat, q: nat, t: seq<byte>)
    requires BytesAt(s, q, t) && p <= q && LengthAt(s, p) == Decoded(Ok(|t|), q)
    ensures BulkStringAt(s, p) ==
              var e := Skip(s, q + |t|, 2);
              if Utf8.Valid(t) then Decoded(Ok(BulkString(t)), e) else Decoded(Err(InvalidUtf8), e)
  {
    PayloadOfBytes(s, q, t);
  }

  /** A stream that ends inside the payload is an error, never a value. */
  lemma BulkStringTruncated(s: seq<ReadResult>, p: nat, line: seq<byte>, t: seq<byte>, n: nat)
    requires BytesAt(s, p, line + CRLF + t) && p + |line| + 2 + |t| == |s|
    requires UsizeParse.ParseUsize(line) == Some(n) && |t| < n
    ensures BulkStringAt(s, p) == Decoded(Err(MissingBulkData), |s|)
  {
    BytesAtConcat(s, p, line + CRLF, t);
    LengthParsed(s, p, line, n);
    PayloadTruncated(s, p + |line| + 2, t, n);
  }

  // ---------------------------------------------------------------- arrays

  /** A decoded array has exactly as many elements as its count line declares. */
  lemma ArrayHasDeclaredCount(s: seq<ReadResult>, p: nat)
    requires p <= |s| && ArrayAt(s, p).result.Ok?
    ensures LengthAt(s, p).result.Ok?
    ensures ArrayAt(s, p).result.value.Array?
    ensures |ArrayAt(s, p).result.value.elements| == LengthAt(s, p).result.value
  {
  }

  /** A count of zero gives the empty array and reads nothing after the count line. */
  lemma EmptyArray(s: seq<ReadResult>, p: nat, line: seq<byte>)
    requires BytesAt(s, p, line + CRLF) && UsizeParse.ParseUsize(line) == Some(0)
    ensures ArrayAt(s, p) == Decoded(Ok(Array([])), p + |line| + 2)
  {
    LengthParsed(s, p, line, 0);
  }

  /** An array whose stream ends after fewer elements than its count line declares, where the next
      element's marker should be, is an error and never a value; the whole stream is consumed. */
  lemma ArrayTruncated(s: seq<ReadResult>, p: nat, line: seq<byte>, vs: seq<RespValue>, n: nat)
    requires BytesAt(s, p, line + CRLF + EncodeAll(vs)) && p + |line| + 2 + |EncodeAll(vs)| == |s|
    requires AllEncodable(vs) && UsizeParse.ParseUsize(line) == Some(n) && |vs| < n
    ensures ArrayAt(s, p) == Decoded(Err(MissingArrayElement), |s|)
  {
    BytesAtConcat(s, p, line + CRLF, EncodeAll(vs));
    LengthParsed(s, p, line, n);
    ArrayElementsTruncated(s, p, p + |line| + 2, vs, n);
  }

  /** The same, once the count line has been read: `n` elements expected from `q` on, fewer there. */
  lemma ArrayElementsTruncated(s: seq<ReadResult>, p: nat, q: nat, vs: seq<RespValue>, n: nat)
    requires p <= |s| && LengthAt(s, p) == Decoded(Ok(n), q)
    requires AllEncodable(vs) && BytesAt(s, q, EncodeAll(vs)) && q + |EncodeAll(vs)| == |s| && |vs| < n
    ensures ArrayAt(s, p) == Decoded(Err(MissingArrayElement), |s|)
  {
    ElementsTruncated(vs, s, q, n);
  }

  /** The element loop over fewer encoded values than it expects runs into the end of the stream. */
  lemma {:induction false} ElementsTruncated(vs: seq<RespValue>, s: seq<ReadResult>, q: nat, k: nat)
    requires AllEncodable(vs) && BytesAt(s, q, EncodeAll(vs)) && q + |EncodeAll(vs)| == |s| && |vs| < k
    ensures Elements(s, q, k) == Decoded(Err(MissingArrayElement), |s|)
    decreases vs
  {
    if vs != [] {
      var head := Encode(vs[0]);
      BytesAtConcat(s, q, head, EncodeAll(vs[1..]));
      assert Encodable(vs[0]);
      DecodeEncoded(vs[0], s, q);
      assert s[q + 0] == Byte(head[0]);
      assert AllEncodable(vs[1..]) by {
        forall i | 0 <= i < |vs[1..]| ensures Encodable(vs[1..][i]) {
          assert vs[1..][i] == vs[i + 1];
        }
      }
      ElementsTruncated(vs[1..], s, q + |head|, k - 1);
    }
  }

  /** An unparsable count or length line is an error for both prefixed variants, and the cursor stops after the line. */
  lemma BadLengthLine(s: seq<ReadResult>, p: nat, line: seq<byte>)
    requires BytesAt(s, p, line + CRLF) && NoCrlf(line) && UsizeParse.ParseUsize(line).None?
    ensures var e := if Utf8.Valid(line) then InvalidInteger else InvalidUtf8;
            && BulkStringAt(s, p) == Decoded(Err(e), p + |line| + 2)
            && ArrayAt(s, p) == Decoded(Err(e), p + |line| + 2)
  {
    LengthOfLine(s, p, line);
  }

  // ---------------------------------------------------------------- markers and the iterator

  /** A first byte other than '+', '$' or '*' is an error and no value; only the marker is consumed. */
  lemma InvalidMarker(s: seq<ReadResult>, p: nat)
    requires p < |s| && s[p].Byte? && s[p].value !in {PLUS, DOLLAR, STAR}
    ensures Next(s, p) == Some(Decoded(Err(InvalidMagic(s[p].value)), p + 1))
  {
  }

  // ---------------------------------------------------------------- payloads are text

  /** Every value the decoder produces holds valid UTF-8 in every payload, at every depth, as the
      `String` fields of `RespValue` require: both reads of text end in a `String::from_utf8` check. */
  lemma {:induction false} DecodedWellFormed(s: seq<ReadResult>, magic: byte, p: nat)
    requires p <= |s| && DecodeValue(s, magic, p).result.Ok?
    ensures WellFormed(DecodeValue(s, magic, p).result.value)
    decreases |s| - p, 1
  {
    if magic == STAR {
      var len := LengthAt(s, p);
      ElementsWellFormed(s, len.end, len.result.value);
    }
  }

  lemma {:induction false} ElementsWellFormed(s: seq<ReadResult>, q: nat, k: nat)
    requires q <= |s| && Elements(s, q, k).result.Ok?
    ensures AllWellFormed(Elements(s, q, k).result.value)
    decreases |s| - q, 0
  {
    if k > 0 {
      var m := ByteAt(s, q, MissingArrayElement);
      var first := DecodeValue(s, m.result.value, m.end);
      DecodedWellFormed(s, m.result.value, m.end);
      ElementsWellFormed(s, first.end, k - 1);
      var rest := Elements(s, first.end, k - 1).result.value;
      assert Elements(s, q, k).result.value == [first.result.value] + rest;
      forall i | 0 <= i < k ensures WellFormed(([first.result.value] + rest)[i]) {
        if i > 0 { assert ([first.result.value] + rest)[i] == rest[i - 1]; }
      }
    }
  }

  // ---------------------------------------------------------------- round trip

  lemma {:induction false} DecodeEncoded(v: RespValue, s: seq<ReadResult>, p: nat)
    requires Encodable(v) && BytesAt(s, p, Encode(v))
    ensures Next(s, p) == Some(Decoded(Ok(v), p + |Encode(v)|))
    decreases v, 1
  {
    assert s[p + 0] == Byte(Encode(v)[0]);
    match v
    case SimpleString(t) => SimpleStringEncoded(t, s, p);
    case BulkString(t) => BulkStringEncoded(t, s, p);
    case Array(vs) => ArrayEncoded(vs, s, p);
  }

  lemma SimpleStringEncoded(t: seq<byte>, s: seq<ReadResult>, p: nat)
    requires NoCrlf(t) && Utf8.Valid(t) && BytesAt(s, p, Encode(SimpleString(t)))
    ensures SimpleStringAt(s, p + 1) == Decoded(Ok(SimpleString(t)), p + |Encode(SimpleString(t))|)
  {
    assert Encode(SimpleString(t)) == [PLUS] + (t + CRLF);
    BytesAtConcat(s, p, [PLUS], t + CRLF);
    ReadLineOfLine(s, p + 1, t);
  }

  lemma BulkStringEncoded(t: seq<byte>, s: seq<ReadResult>, p: nat)
    requires |t| <= UsizeParse.USIZE_MAX && Utf8.Valid(t) && BytesAt(s, p, Encode(BulkString(t)))
    ensures BulkStringAt(s, p + 1) == Decoded(Ok(BulkString(t)), p + |Encode(BulkString(t))|)
  {
    var d := UsizeParse.Decimal(|t|);
    var q := p + 1 + |d| + 2;
    assert Encode(BulkString(t)) == [DOLLAR] + (d + CRLF) + (t + CRLF);
    BytesAtConcat(s, p, [DOLLAR] + (d + CRLF), t + CRLF);
    BytesAtConcat(s, q, t, CRLF);
    PrefixEncoded(DOLLAR, |t|, s, p);
    BulkStringFraming(s, p + 1, q, t);
  }

  lemma {:induction false} ArrayEncoded(vs: seq<RespValue>, s: seq<ReadResult>, p: nat)
    requires Encodable(Array(vs)) && BytesAt(s, p, Encode(Array(vs)))
    ensures ArrayAt(s, p + 1) == Decoded(Ok(Array(vs)), p + |Encode(Array(vs))|)
    decreases Array(vs), 0
  {
    var d := UsizeParse.Decimal(|vs|);
    var q := p + 1 + |d| + 2;
    assert Encode(Array(vs)) == [STAR] + (d + CRLF) + EncodeAll(vs);
    BytesAtConcat(s, p, [STAR] + (d + CRLF), EncodeAll(vs));
    PrefixEncoded(STAR, |vs|, s, p);
    ElementsEncoded(vs, s, q);
  }

  /** A marker followed by the decimal form of `n` and the terminator reads back as the prefix `n`. */
  lemma PrefixEncoded(marker: byte, n: nat, s: seq<ReadResult>, p: nat)
    requires n <= UsizeParse.USIZE_MAX && BytesAt(s, p, [marker] + (UsizeParse.Decimal(n) + CRLF))
    ensures LengthAt(s, p + 1) == Decoded(Ok(n), p + 1 + |UsizeParse.Decimal(n)| + 2)
  {
    UsizeParse.ParseDecimal(n);
    BytesAtConcat(s, p, [marker], UsizeParse.Decimal(n) + CRLF);
    LengthParsed(s, p + 1, UsizeParse.Decimal(n), n);
  }

  lemma {:induction false} ElementsEncoded(vs: seq<RespValue>, s: seq<ReadResult>, q: nat)
    requires AllEncodable(vs) && BytesAt(s, q, EncodeAll(vs))
    ensures Elements(s, q, |vs|) == Decoded(Ok(vs), q + |EncodeAll(vs)|)
    decreases vs
  {
    if vs != [] {
      var head := Encode(vs[0]);
      BytesAtConcat(s, q, head, EncodeAll(vs[1..]));
      assert Encodable(vs[0]);
      DecodeEncoded(vs[0], s, q);
      assert s[q + 0] == Byte(head[0]);
      assert AllEncodable(vs[1..]) by {
        forall i | 0 <= i < |vs[1..]| ensures Encodable(vs[1..][i]) {
          assert vs[1..][i] == vs[i + 1];
        }
      }
      ElementsEncoded(vs[1..], s, q + |head|);
      assert [vs[0]] + vs[1..] == vs;
    }
  }

  /** Round trip: decoding an encoded value, whatever follows it, gives the value back and leaves the
      cursor exactly at the start of what follows. */
  lemma RoundTrip(v: RespValue, rest: seq<ReadResult>)
    requires Encodable(v)
    ensures Next(FromBytes(Encode(v)) + rest, 0) == Some(Decoded(Ok(v), |Encode(v)|))
  {
    BytesAtFromBytes(Encode(v), rest);
    EncodedFirst(v, FromBytes(Encode(v)) + rest);
  }

  /** `DecodeEncoded` at the start of a stream. */
  lemma EncodedFirst(v: RespValue, s: seq<ReadResult>)
    requires Encodable(v) && BytesAt(s, 0, Encode(v))
    ensures Next(s, 0) == Some(Decoded(Ok(v), |Encode(v)|))
  {
    DecodeEncoded(v, s, 0);
  }

  /** Values wrapped as successful pulls, in order. */
  function AllOk(vs: seq<RespValue>): (rs: seq<Result<RespValue, DecodeError>>)
    ensures |rs| == |vs| && forall i :: 0 <= i < |vs| ==> rs[i] == Ok(vs[i])
  {
    if vs == [] then [] else [Ok(vs[0])] + AllOk(vs[1..])
  }

  lemma {:induction false} PullsEncoded(vs: seq<RespValue>, s: seq<ReadResult>, q: nat)
    requires AllEncodable(vs) && BytesAt(s, q, EncodeAll(vs)) && q + |EncodeAll(vs)| == |s|
    ensures Pulls(s, q) == AllOk(vs)
    decreases vs
  {
    if vs != [] {
      var head := Encode(vs[0]);
      BytesAtConcat(s, q, head, EncodeAll(vs[1..]));
      assert Encodable(vs[0]);
      DecodeEncoded(vs[0], s, q);
      assert s[q + 0] == Byte(head[0]);
      assert AllEncodable(vs[1..]) by {
        forall i | 0 <= i < |vs[1..]| ensures Encodable(vs[1..][i]) {
          assert vs[1..][i] == vs[i + 1];
        }
      }
      PullsEncoded(vs[1..], s, q + |head|);
    }
  }

  /** A stream holding several encoded values yields exactly those values, one per `next()`, in order,
      each attempt starting right after the previous value, and then `None`. */
  lemma StreamRoundTrip(vs: seq<RespValue>)
    requires AllEncodable(vs)
    ensures Pulls(FromBytes(EncodeAll(vs)), 0) == AllOk(vs)
  {
    var t := EncodeAll(vs);
    assert FromBytes(t) + [] == FromBytes(t);
    BytesAtFromBytes(t, []);
    PullsEncoded(vs, FromBytes(t), 0);
  }

  /** The encoding is injective on encodable values: two of them have equal encodings exactly when they are equal. */
  lemma EncodeInjective(v: RespValue, w: RespValue)
    requires Encodable(v) && Encodable(w)
    ensures Encode(v) == Encode(w) <==> v == w
  {
    if Encode(v) == Encode(w) {
      RoundTrip(v, []);
      RoundTrip(w, []);
    }
  }
}
