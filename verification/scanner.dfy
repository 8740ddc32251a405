/** The buffered scanner the decoder drives: it holds the bytes read but not
    yet consumed, calls the split rule on them, and reads the next chunk of
    input only when the rule asks for more. Each chunk stands for what one
    read of the transport returned; end of input is reported either by a
    read of its own after the last chunk or together with the last chunk. */
module Scanning {
  import opened Wrappers
  import opened U24
  import opened Decoder

  /** Concatenation of the chunks still to be read. */
  function Flatten(chunks: seq<seq<byte>>): (bytes: seq<byte>)
  {
    if |chunks| == 0 then [] else chunks[0] + Flatten(chunks[1..])
  }

  /** Which split rule the scanner applies: the rule as written, which
      returns nothing whenever end of input has been seen, or the rule with
      that early return removed, which treats buffered bytes the same with or
      without end of input. */
  datatype Rule = AsWritten | EOFAware

  /** The split rule selected by `rule`. */
  function Apply(rule: Rule, data: seq<byte>, atEOF: bool): (r: SplitResult)
    ensures 0 <= r.advance <= |data|
    ensures r.token.Some? ==> r.token.value <= data && r.advance == |r.token.value| > Width
    ensures rule == AsWritten && atEOF ==> r == NoToken
  {
    match rule
    case AsWritten => Split(data, atEOF)
    case EOFAware => Split(data, false)
  }

  /** Scanner state: buffered unconsumed bytes, chunks not yet read, whether
      end of input has been seen, and whether the reader reports end of
      input in the same read that returns the last chunk. */
  datatype Scanner = Scanner(buf: seq<byte>, chunks: seq<seq<byte>>, eof: bool, eofWithLast: bool)

  /** The scanner before anything is read. */
  function Start(chunks: seq<seq<byte>>, eofWithLast: bool): Scanner {
    Scanner([], chunks, false, eofWithLast)
  }

  /** Reachable states: once end of input is seen nothing is left to read. */
  predicate Settled(s: Scanner) {
    s.eof ==> s.chunks == []
  }

  /** Every byte the scanner has not yet handed out, in stream order. */
  function Unread(s: Scanner): seq<byte> {
    s.buf + Flatten(s.chunks)
  }

  /** The outcome of one scan: a token and the scanner state after it, or the
      end of scanning with the split error, if any (end of input is not an
      error). */
  datatype Step = Token(token: seq<byte>, next: Scanner) | Done(err: Option<DecodeError>)

  /** One call of the scanner's `Scan`. The split rule runs on the buffer
      when it is non-empty or input has ended; its error ends scanning, its
      token is returned with the consumed bytes dropped from the buffer;
      otherwise the scanner stops at end of input, or reads the next chunk
      (seeing end of input when none is left, or with the last one when the
      reader reports it so) and tries again. A token is always longer than
      its prefix, no byte is lost or reordered, and under the rule as written
      no token follows end of input. */
  function Scan(s: Scanner, rule: Rule): (r: Step)
    ensures r.Token? ==> r.token + Unread(r.next) == Unread(s) && Width < |r.token|
    ensures r.Token? ==> r.next.eofWithLast == s.eofWithLast && (Settled(s) ==> Settled(r.next))
    ensures r.Token? && rule == AsWritten ==> !r.next.eof
    decreases |s.chunks|, if s.eof then 0 else 1
  {
    if |s.buf| == 0 && !s.eof then
      Scan(Read(s), rule)
    else
      var split := Apply(rule, s.buf, s.eof);
      if split.err.Some? then
        Done(split.err)
      else if split.token.Some? then
        Token(split.token.value, Consume(s, split.advance))
      else if s.eof then
        Done(None)
      else
        Scan(Read(s), rule)
  }

  /** The scanner after the first `n` buffered bytes were handed out: what
      they were followed by is still unread, in order. */
  function Consume(s: Scanner, n: nat): (r: Scanner)
    requires n <= |s.buf|
    ensures s.buf[..n] + Unread(r) == Unread(s)
    ensures r.chunks == s.chunks && r.eof == s.eof && r.eofWithLast == s.eofWithLast
  {
    var r := Scanner(s.buf[n..], s.chunks, s.eof, s.eofWithLast);
    assert s.buf == s.buf[..n] + r.buf;
    r
  }

  /** One read of the transport by a scanner that has not seen end of input:
      the next chunk is appended to the buffer, and end of input is seen when
      no chunk is left or when it comes with the last one. Nothing is lost. */
  function Read(s: Scanner): (r: Scanner)
    requires !s.eof
    ensures Unread(r) == Unread(s) && r.eofWithLast == s.eofWithLast
    ensures |r.chunks| < |s.chunks| || (r.chunks == s.chunks == [] && r.eof)
    ensures Settled(r)
    ensures r.eof <==> |s.chunks| == 0 || (|s.chunks| == 1 && s.eofWithLast)
    ensures |s.chunks| > 0 ==> r.buf == s.buf + s.chunks[0] && r.chunks == s.chunks[1..]
  {
    if |s.chunks| == 0 then
      Scanner(s.buf, [], true, s.eofWithLast)
    else
      var last := |s.chunks| == 1;
      assert Flatten(s.chunks) == s.chunks[0] + Flatten(s.chunks[1..]);
      Scanner(s.buf + s.chunks[0], s.chunks[1..], last && s.eofWithLast, s.eofWithLast)
  }

  /** The deliveries under which a rule sees every byte before end of input
      or does not care: the rule as written needs end of input reported by a
      read of its own. */
  predicate Faithful(rule: Rule, s: Scanner) {
    Settled(s) && (rule == AsWritten ==> !s.eof && !s.eofWithLast)
  }

  /** However the unread bytes are divided between buffer and chunks, one
      scan does what the split rule does on all of them at once: the same
      error, or the same token with the same bytes left over. */
  lemma {:induction false} ScanSplits(s: Scanner, rule: Rule)
    requires Faithful(rule, s)
    ensures var split := Split(Unread(s), false);
      && (split.token.None? ==> Scan(s, rule) == Done(split.err))
      && (split.token.Some? ==>
            && Scan(s, rule).Token?
            && Scan(s, rule).token == split.token.value
            && Unread(Scan(s, rule).next) == Unread(s)[split.advance..])
    decreases |s.chunks|, if s.eof then 0 else 1
  {
    var u := Unread(s);
    var split := Apply(rule, s.buf, s.eof);
    if (|s.buf| > 0 || s.eof) && split != NoToken {
      SplitStable(s.buf, Flatten(s.chunks));
    } else if s.eof {
      assert u == s.buf;
    } else {
      if |s.chunks| == 0 {
        assert u == s.buf;
      }
      if rule == EOFAware || |s.chunks| > 0 {
        ScanSplits(Read(s), rule);
      }
    }
  }
}
