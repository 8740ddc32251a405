/** Locating the optional metadata section and the data section inside a
    frame body, starting at a byte offset. With `FlagMetadata` set, the region
    at the offset is `[u24 metadata length][metadata][data]`; without it, the
    whole region is data. */
module Slicing {
  import opened Wrappers
  import opened U24
  import opened Header

  /** The body region a metadata section and a data section occupy together:
      the reference layout both the constructors and the slicers follow.
      An absent metadata section takes no bytes at all, not even a length. */
  function Layout(metadata: Option<seq<byte>>, data: seq<byte>): seq<byte>
  {
    match metadata
    case None => data
    case Some(m) => EncodeU24(|m|) + m + data
  }

  /** The inputs on which slicing stays within the length of `raw`, a duty
      of the caller. Go panics when the three length bytes, or the data after
      a metadata section, lie past the length. The metadata slice itself is
      bounded by the capacity of `raw` rather than by its length; a sequence
      has no spare capacity, so the model asks the metadata to fit within
      the length too. */
  predicate Sliceable(h: Header, raw: seq<byte>, offset: int) {
    && 0 <= offset
    && if HasMetadata(h) then
         offset + Width <= |raw| && offset + Width + DecodeU24(raw, offset) <= |raw|
       else
         offset <= |raw|
  }

  /** The metadata section at `offset`: absent (Go's `nil`) when the flag is
      clear, whatever `raw` and `offset` are, since nothing is read then;
      otherwise the bytes the embedded 24-bit length covers, which may be
      present and empty. */
  function SliceMetadata(h: Header, raw: seq<byte>, offset: int): (metadata: Option<seq<byte>>)
    requires HasMetadata(h) ==> Sliceable(h, raw, offset)
    ensures metadata.None? <==> !HasMetadata(h)
    ensures metadata.Some? ==>
      && |metadata.value| == DecodeU24(raw, offset)
      && raw[offset..offset + Width + |metadata.value|] == EncodeU24(|metadata.value|) + metadata.value
  {
    if !HasMetadata(h) then
      None
    else
      var l := DecodeU24(raw, offset);
      EncodeDecode(raw, offset);
      Some(raw[offset + Width..offset + Width + l])
  }

  /** The two sections of a body region. */
  datatype Sections = Sections(metadata: Option<seq<byte>>, data: seq<byte>)

  /** Both sections in one pass. The metadata agrees with `SliceMetadata`, and
      the region from `offset` to the end is reassembled exactly by `Layout`,
      so the data is everything after the metadata. */
  function SliceMetadataAndData(h: Header, raw: seq<byte>, offset: int): (s: Sections)
    requires Sliceable(h, raw, offset)
    ensures s.metadata == SliceMetadata(h, raw, offset)
    ensures raw[offset..] == Layout(s.metadata, s.data)
  {
    if !HasMetadata(h) then
      Sections(None, raw[offset..])
    else
      var l := DecodeU24(raw, offset);
      var start := offset + Width;
      var s := Sections(Some(raw[start..start + l]), raw[start + l..]);
      EncodeDecode(raw, offset);
      assert raw[offset..] == raw[offset..start] + raw[start..start + l] + raw[start + l..];
      s
  }

  /** Slicing recovers what `Layout` laid out, at any offset after a prefix,
      provided the flag matches the presence of metadata and the metadata
      length fits in 24 bits. */
  lemma {:induction false} SliceLayout(h: Header, prefix: seq<byte>, metadata: Option<seq<byte>>, data: seq<byte>)
    requires metadata.Some? <==> HasMetadata(h)
    requires metadata.Some? ==> |metadata.value| < Limit
    ensures Sliceable(h, prefix + Layout(metadata, data), |prefix|)
    ensures SliceMetadataAndData(h, prefix + Layout(metadata, data), |prefix|) == Sections(metadata, data)
  {
    match metadata
    case None =>
      assert (prefix + data)[|prefix|..] == data;
    case Some(m) =>
      SliceLayoutPresent(h, prefix, m, data);
  }

  /** `SliceLayout` when a metadata section is present. */
  lemma SliceLayoutPresent(h: Header, prefix: seq<byte>, m: seq<byte>, data: seq<byte>)
    requires HasMetadata(h)
    requires |m| < Limit
    ensures Sliceable(h, prefix + Layout(Some(m), data), |prefix|)
    ensures SliceMetadataAndData(h, prefix + Layout(Some(m), data), |prefix|) == Sections(Some(m), data)
  {
    var o := |prefix|;
    var raw := prefix + EncodeU24(|m|) + (m + data);
    assert raw == prefix + Layout(Some(m), data);
    DecodeAfter(prefix, |m|, m + data);
    var after := raw[o + Width..];
    assert after == m + data;
    assert raw[o + Width..o + Width + |m|] == after[..|m|] == m;
    assert raw[o + Width + |m|..] == after[|m|..] == data;
  }

  /** An encoded length reads back at the position it was written to. */
  lemma DecodeAfter(prefix: seq<byte>, n: nat, rest: seq<byte>)
    requires n < Limit
    ensures DecodeU24(prefix + EncodeU24(n) + rest, |prefix|) == n
  {
    var raw := prefix + EncodeU24(n) + rest;
    assert raw[|prefix|..|prefix| + Width] == EncodeU24(n);
    assert DecodeU24(raw, |prefix|) == DecodeU24(EncodeU24(n), 0);
  }
}
