/** The length-based frame decoder: a split rule that cuts a buffered byte
    stream into `[u24 length L][L bytes]` records, the buffered scanner that
    applies it as input arrives in chunks, and the loop that hands every
    record, in order, to a header parser and a handler until one of them or
    the split rule fails. */
module Decoder {
  import opened Wrappers
  import opened U24

  /** The split rule's only error: a length prefix below 1. */
  datatype DecodeError = BadFrameLength(length: int)

  /** What a split call returns: bytes to consume, the token cut off the
      front of the buffer if any, and an error that ends scanning if any. */
  datatype SplitResult = SplitResult(advance: int, token: Option<seq<byte>>, err: Option<DecodeError>)

  /** The answer "nothing yet": consume nothing, emit nothing, no error. */
  const NoToken := SplitResult(0, None, None)

  /** The split rule applied to the buffered, unconsumed bytes `data`.
      At end of input it emits nothing, even when a whole record is buffered;
      with fewer than three bytes it asks for more. A length below 1 is an
      error. A whole record is emitted as a token that still carries its
      3-byte prefix, and exactly that many bytes are consumed; a partial one
      asks for more. */
  function Split(data: seq<byte>, atEOF: bool): (r: SplitResult)
    ensures atEOF || |data| < Width ==> r == NoToken
    ensures 0 <= r.advance <= |data|
    ensures r.err.Some? <==> !atEOF && Width <= |data| && DecodeU24(data, 0) < 1
    ensures r.err.Some? ==>
      Width <= |data| && r == SplitResult(0, None, Some(BadFrameLength(DecodeU24(data, 0))))
    ensures r.token.Some? <==>
      !atEOF && Width <= |data| && 1 <= DecodeU24(data, 0) && Width + DecodeU24(data, 0) <= |data|
    ensures r.token.Some? ==>
      && Width <= |data|
      && r.err.None?
      && r.token.value <= data
      && r.advance == |r.token.value| == Width + DecodeU24(data, 0)
    ensures r.token.None? ==> r.advance == 0
  {
    if atEOF then
      NoToken
    else if |data| < Width then
      NoToken
    else
      var frameLength := DecodeU24(data, 0);
      if frameLength < 1 then
        SplitResult(0, None, Some(BadFrameLength(frameLength)))
      else
        var frameSize := frameLength + Width;
        if frameSize <= |data| then
          SplitResult(frameSize, Some(data[..frameSize]), None)
        else
          NoToken
  }

  /** The wire form of one record: its 24-bit length, then the record. */
  function Enframe(record: seq<byte>): (wire: seq<byte>)
    ensures |wire| == Width + |record| && wire[Width..] == record
  {
    EncodeU24(|record|) + record
  }

  /** Records as they appear back to back on the wire. */
  function Frames(records: seq<seq<byte>>): (wire: seq<byte>)
  {
    if |records| == 0 then [] else Enframe(records[0]) + Frames(records[1..])
  }

  /** Records the decoder can carry: non-empty, with a length that fits the prefix. */
  predicate Framable(record: seq<byte>) {
    1 <= |record| < Limit
  }

  /** The split rule recognises an enframed record in front of any bytes:
      it consumes exactly that record with its prefix. */
  lemma {:induction false} SplitEnframed(record: seq<byte>, rest: seq<byte>)
    requires Framable(record)
    ensures Split(Enframe(record) + rest, false) ==
      SplitResult(Width + |record|, Some(Enframe(record)), None)
  {
    var data := Enframe(record) + rest;
    assert data[..Width] == EncodeU24(|record|);
    assert DecodeU24(data, 0) == DecodeU24(EncodeU24(|record|), 0);
    assert data[..Width + |record|] == Enframe(record);
  }

  /** A token or an error, once produced, is not changed by more bytes
      arriving behind the buffer. */
  lemma {:induction false} SplitStable(data: seq<byte>, more: seq<byte>)
    requires Split(data, false) != NoToken
    ensures Split(data + more, false) == Split(data, false)
  {
    var both := data + more;
    assert both[..Width] == data[..Width];
    assert DecodeU24(both, 0) == DecodeU24(data, 0);
    if Split(data, false).token.Some? {
      assert both[..Width + DecodeU24(data, 0)] == data[..Width + DecodeU24(data, 0)];
    }
  }

  // ---------------------------------------------------------------------
  // Reference decoding of a complete byte sequence
  // ---------------------------------------------------------------------

  /** The records cut from a finite stream, and the error that ended it. */
  datatype Decoded = Decoded(records: seq<seq<byte>>, err: Option<DecodeError>)

  /** Splits `stream` repeatedly (never at end of input) and strips each
      token's prefix. The records carried, re-enframed, are a prefix of the
      stream; decoding stops at the first point where the split rule yields
      no token, and its error, if any, is the error returned. */
  function Records(stream: seq<byte>): (d: Decoded)
    ensures forall i :: 0 <= i < |d.records| ==> Framable(d.records[i])
    ensures |Frames(d.records)| <= |stream| && stream[..|Frames(d.records)|] == Frames(d.records)
    ensures Split(stream[|Frames(d.records)|..], false).token.None?
    ensures d.err == Split(stream[|Frames(d.records)|..], false).err
    decreases |stream|
  {
    var s := Split(stream, false);
    if s.token.Some? then
      var record := s.token.value[Width..];
      var rest := Records(stream[s.advance..]);
      var d := Decoded([record] + rest.records, rest.err);
      TokenEnframes(stream);
      assert Frames(d.records) == Enframe(record) + Frames(rest.records) by {
        assert d.records[1..] == rest.records;
      }
      assert stream[|Frames(d.records)|..] == stream[s.advance..][|Frames(rest.records)|..];
      d
    else
      assert stream[|Frames([])|..] == stream;
      Decoded([], s.err)
  }

  /** A token is an enframed record followed, in the stream, by the bytes
      the split rule did not consume. */
  lemma TokenEnframes(stream: seq<byte>)
    requires Split(stream, false).token.Some?
    ensures var s := Split(stream, false);
      && s.token.value == Enframe(s.token.value[Width..])
      && Framable(s.token.value[Width..])
      && stream == s.token.value + stream[s.advance..]
  {
    EncodeDecode(stream, 0);
  }

  /** Decoding a stream that starts with a token is that token's record in
      front of the decoding of the rest. */
  lemma RecordsStep(stream: seq<byte>)
    requires Split(stream, false).token.Some?
    ensures var s := Split(stream, false);
      Records(stream) == Decoded([s.token.value[Width..]] + Records(stream[s.advance..]).records,
                                 Records(stream[s.advance..]).err)
  {
  }

  /** Decoding a stream that starts with an enframed record is that record
      in front of the decoding of the rest. */
  lemma RecordsCons(record: seq<byte>, rest: seq<byte>)
    requires Framable(record)
    ensures Records(Enframe(record) + rest) == Decoded([record] + Records(rest).records, Records(rest).err)
  {
    var stream := Enframe(record) + rest;
    var split := Split(stream, false);
    assert split == SplitResult(Width + |record|, Some(Enframe(record)), None) by {
      SplitEnframed(record, rest);
    }
    assert stream[split.advance..] == rest;
    RecordsStep(stream);
  }

  /** Records laid back to back decode to exactly those records, in order;
      what follows them decides only the error: an incomplete tail is
      dropped silently, a zero length prefix is reported. */
  lemma {:induction false} RecordsOfFrames(records: seq<seq<byte>>, tail: seq<byte>)
    requires forall i :: 0 <= i < |records| ==> Framable(records[i])
    requires Split(tail, false).token.None?
    ensures Records(Frames(records) + tail) == Decoded(records, Split(tail, false).err)
    decreases |records|
  {
    if |records| == 0 {
      assert Frames(records) + tail == tail;
    } else {
      var rest := Frames(records[1..]) + tail;
      assert Frames(records) + tail == Enframe(records[0]) + rest;
      RecordsCons(records[0], rest);
      RecordsOfFrames(records[1..], tail);
      assert [records[0]] + records[1..] == records;
    }
  }
}
