/** The decode loop of `lengthBasedFrameDecoder.Handle`: scan a record, strip
    its length prefix, parse its header, call the handler, and stop at the
    first failure. The header parser and the handler are not part of this
    model and are taken as parameters. */
module Dispatch {
  import opened Wrappers
  import opened U24
  import opened Header
  import opened Decoder
  import opened Scanning

  /** One handler invocation: the parsed header and the record (header and
      body bytes, length prefix stripped). */
  datatype Call = Call(header: Header, record: seq<byte>)

  /** Why the loop stopped with an error: the split rule's error, or an error
      the header parser or the handler returned, passed on unchanged. */
  datatype HandleError<E> = Framing(cause: DecodeError) | Raised(error: E)

  /** The handler invocations made, in order, and the error returned, if any. */
  datatype Outcome<E> = Outcome(calls: seq<Call>, err: Option<HandleError<E>>)

  /** A record the loop gets past: its header parses and the handler accepts it. */
  predicate Accepted<E>(record: seq<byte>, parse: seq<byte> -> Result<Header, E>, handler: (Header, seq<byte>) -> Option<E>) {
    parse(record).Ok? && handler(parse(record).value, record).None?
  }

  /** A split error as the loop returns it. */
  function AsFraming<E>(err: Option<DecodeError>): Option<HandleError<E>> {
    if err.Some? then Some(Framing(err.value)) else None
  }

  /** What every run of the loop shows: each call carries the parsed header
      of its record, and every call was accepted by the handler except
      possibly the last, which fails only when the loop returns that
      handler's error. */
  ghost predicate Coherent<E>(o: Outcome<E>, parse: seq<byte> -> Result<Header, E>, handler: (Header, seq<byte>) -> Option<E>) {
    forall i :: 0 <= i < |o.calls| ==>
      && parse(o.calls[i].record) == Ok(o.calls[i].header)
      && (i < |o.calls| - 1 || !(o.err.Some? && o.err.value.Raised?) ==>
            handler(o.calls[i].header, o.calls[i].record).None?)
      && (i == |o.calls| - 1 && handler(o.calls[i].header, o.calls[i].record).Some? ==>
            o.err == Some(Raised(handler(o.calls[i].header, o.calls[i].record).value)))
  }

  /** An accepted call in front of a coherent outcome keeps it coherent. */
  lemma CoherentCons<E>(call: Call, later: Outcome<E>, parse: seq<byte> -> Result<Header, E>, handler: (Header, seq<byte>) -> Option<E>)
    requires parse(call.record) == Ok(call.header) && handler(call.header, call.record).None?
    requires Coherent(later, parse, handler)
    ensures Coherent(Outcome([call] + later.calls, later.err), parse, handler)
  {
    var o := Outcome([call] + later.calls, later.err);
    forall i | 0 <= i < |o.calls|
      ensures parse(o.calls[i].record) == Ok(o.calls[i].header)
      ensures i < |o.calls| - 1 || !(o.err.Some? && o.err.value.Raised?) ==>
                handler(o.calls[i].header, o.calls[i].record).None?
      ensures i == |o.calls| - 1 && handler(o.calls[i].header, o.calls[i].record).Some? ==>
                o.err == Some(Raised(handler(o.calls[i].header, o.calls[i].record).value))
    {
      if i > 0 {
        assert o.calls[i] == later.calls[i - 1];
      }
    }
  }

  /** The outcome of the loop from the point it holds `record`: the header
      is parsed and the handler called, and only if both succeed does the
      outcome `later` of the remaining records follow. */
  function Deliver<E>(record: seq<byte>, parse: seq<byte> -> Result<Header, E>, handler: (Header, seq<byte>) -> Option<E>,
                      later: Outcome<E>): Outcome<E>
  {
    match parse(record)
    case Err(e) => Outcome([], Some(Raised(e)))
    case Ok(h) =>
      match handler(h, record)
      case Some(e) => Outcome([Call(h, record)], Some(Raised(e)))
      case None => Outcome([Call(h, record)] + later.calls, later.err)
  }

  /** Delivering a record in front of a coherent outcome keeps it coherent. */
  lemma DeliverCoherent<E>(record: seq<byte>, parse: seq<byte> -> Result<Header, E>, handler: (Header, seq<byte>) -> Option<E>,
                           later: Outcome<E>)
    requires Coherent(later, parse, handler)
    ensures Coherent(Deliver(record, parse, handler, later), parse, handler)
  {
    if parse(record).Ok? && handler(parse(record).value, record).None? {
      CoherentCons(Call(parse(record).value, record), later, parse, handler);
    }
  }

  /** The loop, run from scanner state `s`: scan a token, strip its length
      prefix, and deliver the record, going on only if it was accepted. Its
      outcome is coherent. */
  function Handle<E>(s: Scanner, rule: Rule, parse: seq<byte> -> Result<Header, E>, handler: (Header, seq<byte>) -> Option<E>): (o: Outcome<E>)
    ensures Coherent(o, parse, handler)
    decreases |Unread(s)|
  {
    match Scan(s, rule)
    case Done(err) => Outcome([], AsFraming(err))
    case Token(token, next) =>
      var later := Handle(next, rule, parse, handler);
      DeliverCoherent(token[Width..], parse, handler, later);
      Deliver(token[Width..], parse, handler, later)
  }

  /** The number of leading records the loop gets past: all of them are
      accepted, and the one after them, if any, is not. */
  function AcceptedPrefix<E>(records: seq<seq<byte>>, parse: seq<byte> -> Result<Header, E>,
                             handler: (Header, seq<byte>) -> Option<E>): (k: nat)
    ensures k <= |records|
    ensures forall i :: 0 <= i < k ==> Accepted(records[i], parse, handler)
    ensures k < |records| ==> !Accepted(records[k], parse, handler)
    decreases |records|
  {
    if |records| == 0 || !Accepted(records[0], parse, handler) then
      0
    else
      var k := 1 + AcceptedPrefix(records[1..], parse, handler);
      assert forall i :: 1 <= i < |records| ==> records[i] == records[1..][i - 1];
      k
  }

  /** The calls follow the records in order, one per record from the first,
      each with the header its record parses to. */
  ghost predicate InOrder<E>(o: Outcome<E>, records: seq<seq<byte>>, parse: seq<byte> -> Result<Header, E>) {
    forall i :: 0 <= i < |o.calls| ==>
      i < |records| && o.calls[i].record == records[i] && parse(records[i]) == Ok(o.calls[i].header)
  }

  /** With `k` accepted records in front, the loop stops at record `k`: if
      its header fails to parse there is no call for it, if the handler
      rejects it that call is the last; either way the error is returned
      unchanged. When every record is accepted, each gets exactly one call
      and the stream's own error, if any, is returned. */
  ghost predicate StopsAtFirstRejected<E>(o: Outcome<E>, records: seq<seq<byte>>, streamErr: Option<DecodeError>,
                                    parse: seq<byte> -> Result<Header, E>, handler: (Header, seq<byte>) -> Option<E>) {
    var k := AcceptedPrefix(records, parse, handler);
    && (k == |records| ==> |o.calls| == k && o.err == AsFraming(streamErr))
    && (k < |records| && parse(records[k]).Err? ==>
          |o.calls| == k && o.err == Some(Raised(parse(records[k]).error)))
    && (k < |records| && parse(records[k]).Ok? ==>
          |o.calls| == k + 1 && o.err == Some(Raised(handler(parse(records[k]).value, records[k]).value)))
  }

  /** Reference dispatch of an already cut list of records, followed by the
      error that ended the stream: the loop body applied to each record in
      turn, going on only while records are accepted. */
  function DispatchAll<E>(records: seq<seq<byte>>, streamErr: Option<DecodeError>,
                          parse: seq<byte> -> Result<Header, E>, handler: (Header, seq<byte>) -> Option<E>): Outcome<E>
    decreases |records|
  {
    if |records| == 0 then
      Outcome([], AsFraming(streamErr))
    else
      Deliver(records[0], parse, handler, DispatchAll(records[1..], streamErr, parse, handler))
  }

  /** Dispatch order and stop-on-error: the calls follow the records in
      order and the loop stops exactly at the first record not accepted,
      returning its error unchanged, or else handles every record and
      returns the stream's own error. */
  lemma {:induction false} DispatchAllStops<E>(records: seq<seq<byte>>, streamErr: Option<DecodeError>,
                                               parse: seq<byte> -> Result<Header, E>, handler: (Header, seq<byte>) -> Option<E>)
    ensures InOrder(DispatchAll(records, streamErr, parse, handler), records, parse)
    ensures StopsAtFirstRejected(DispatchAll(records, streamErr, parse, handler), records, streamErr, parse, handler)
    decreases |records|
  {
    if |records| > 0 && Accepted(records[0], parse, handler) {
      var h := parse(records[0]).value;
      var rest := DispatchAll(records[1..], streamErr, parse, handler);
      var o := DispatchAll(records, streamErr, parse, handler);
      assert o == Outcome([Call(h, records[0])] + rest.calls, rest.err);
      DispatchAllStops(records[1..], streamErr, parse, handler);
      assert InOrder(o, records, parse) by {
        forall i | 0 <= i < |o.calls|
          ensures i < |records| && o.calls[i].record == records[i] && parse(records[i]) == Ok(o.calls[i].header)
        {
          if i > 0 {
            assert o.calls[i] == rest.calls[i - 1];
            assert records[i] == records[1..][i - 1];
          }
        }
      }
      assert StopsAtFirstRejected(o, records, streamErr, parse, handler) by {
        var k := AcceptedPrefix(records[1..], parse, handler);
        assert AcceptedPrefix(records, parse, handler) == k + 1;
        assert k < |records[1..]| ==> records[k + 1] == records[1..][k];
      }
    }
  }

  /** The loop, from any state whose delivery the rule handles faithfully,
      behaves as the reference dispatch of the records its unread bytes
      decode to. */
  lemma {:induction false} HandleDecodes<E>(s: Scanner, rule: Rule,
                                            parse: seq<byte> -> Result<Header, E>, handler: (Header, seq<byte>) -> Option<E>)
    requires Faithful(rule, s)
    ensures Handle(s, rule, parse, handler) == DispatchAll(Records(Unread(s)).records, Records(Unread(s)).err, parse, handler)
    decreases |Unread(s)|
  {
    var u := Unread(s);
    var split := Split(u, false);
    ScanSplits(s, rule);
    if split.token.Some? {
      var step := Scan(s, rule);
      var rest := Records(u[split.advance..]);
      var records := [step.token[Width..]] + rest.records;
      assert Records(u) == Decoded(records, rest.err) by {
        RecordsStep(u);
      }
      HandleDecodes(step.next, rule, parse, handler);
      assert records[1..] == rest.records;
    }
  }

  /** Chunking does not matter: two ways of delivering the same bytes give
      the same handler calls and the same result, provided the rule handles
      both deliveries faithfully. */
  lemma {:induction false} HandleChunkingInvariant<E>(chunks: seq<seq<byte>>, other: seq<seq<byte>>, eofWithLast: bool, rule: Rule,
                                                      parse: seq<byte> -> Result<Header, E>, handler: (Header, seq<byte>) -> Option<E>)
    requires Flatten(chunks) == Flatten(other)
    requires Faithful(rule, Start(chunks, eofWithLast))
    ensures Handle(Start(chunks, eofWithLast), rule, parse, handler) == Handle(Start(other, eofWithLast), rule, parse, handler)
  {
    HandleDecodes(Start(chunks, eofWithLast), rule, parse, handler);
    HandleDecodes(Start(other, eofWithLast), rule, parse, handler);
    assert Unread(Start(chunks, eofWithLast)) == Flatten(chunks);
    assert Unread(Start(other, eofWithLast)) == Flatten(other);
  }

  /** A stream of enframed records, however chunked, is dispatched record by
      record in order; a trailing incomplete record is dropped without an
      error, and a trailing zero length prefix ends the loop with
      `BadFrameLength(0)` once every earlier record was handled. */
  lemma {:induction false} HandleFrames<E>(chunks: seq<seq<byte>>, eofWithLast: bool, rule: Rule,
                                           records: seq<seq<byte>>, tail: seq<byte>,
                                           parse: seq<byte> -> Result<Header, E>, handler: (Header, seq<byte>) -> Option<E>)
    requires Faithful(rule, Start(chunks, eofWithLast))
    requires forall i :: 0 <= i < |records| ==> Framable(records[i])
    requires Split(tail, false).token.None?
    requires Flatten(chunks) == Frames(records) + tail
    ensures Handle(Start(chunks, eofWithLast), rule, parse, handler) == DispatchAll(records, Split(tail, false).err, parse, handler)
  {
    HandleDecodes(Start(chunks, eofWithLast), rule, parse, handler);
    assert Unread(Start(chunks, eofWithLast)) == Flatten(chunks);
    RecordsOfFrames(records, tail);
  }

  /** A stream whose first length prefix is zero ends the loop with
      `BadFrameLength(0)` before any handler call, whatever follows. */
  lemma {:induction false} HandleZeroLength<E>(chunks: seq<seq<byte>>, eofWithLast: bool, rule: Rule, rest: seq<byte>,
                                               parse: seq<byte> -> Result<Header, E>, handler: (Header, seq<byte>) -> Option<E>)
    requires Faithful(rule, Start(chunks, eofWithLast))
    requires Flatten(chunks) == [0, 0, 0] + rest
    ensures Handle(Start(chunks, eofWithLast), rule, parse, handler) == Outcome([], Some(Framing(BadFrameLength(0))))
  {
    var tail := [0, 0, 0] + rest;
    assert DecodeU24(tail, 0) == 0;
    assert Frames([]) + tail == tail;
    HandleFrames(chunks, eofWithLast, rule, [], tail, parse, handler);
  }

  /** The rule as written loses a whole record when the reader reports end of
      input in the same read that delivers it: nothing is handled and no
      error is returned, although the bytes decode to that record. */
  lemma {:induction false} FinalReadDropped<E>(record: seq<byte>, parse: seq<byte> -> Result<Header, E>, handler: (Header, seq<byte>) -> Option<E>)
    requires Framable(record)
    ensures Records(Enframe(record)) == Decoded([record], None)
    ensures Handle(Start([Enframe(record)], true), AsWritten, parse, handler) == Outcome([], None)
  {
    assert Records(Enframe(record)) == Decoded([record], None) by {
      RecordsOfFrames([record], []);
      assert Frames([record]) + [] == Enframe(record);
    }
    var s := Start([Enframe(record)], true);
    var filled := Scanner(Enframe(record), [], true, true);
    assert Read(s) == filled;
    assert Scan(filled, AsWritten) == Done(None) by {
      assert Apply(AsWritten, Enframe(record), true) == NoToken;
    }
    assert Scan(s, AsWritten) == Done(None);
  }

  /** With the early return removed, a record delivered together with end of
      input is handled like any other: the corrected rule dispatches every
      enframed record whichever way end of input is reported. */
  lemma {:induction false} FinalReadKept<E>(chunks: seq<seq<byte>>, eofWithLast: bool, records: seq<seq<byte>>,
                                            parse: seq<byte> -> Result<Header, E>, handler: (Header, seq<byte>) -> Option<E>)
    requires forall i :: 0 <= i < |records| ==> Framable(records[i])
    requires Flatten(chunks) == Frames(records)
    ensures Handle(Start(chunks, eofWithLast), EOFAware, parse, handler) == DispatchAll(records, None, parse, handler)
  {
    assert Frames(records) + [] == Frames(records);
    HandleFrames(chunks, eofWithLast, EOFAware, records, [], parse, handler);
  }
}
