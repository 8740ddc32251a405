/** The request-response frame: the representative concrete frame type whose
    body is the shared metadata-and-data layout at offset 0. */
module RequestResponseFrame {
  import opened Wrappers
  import opened U24
  import opened Header
  import opened Slicing

  /** A base frame: a header plus the body bytes it owns. */
  datatype Frame = Frame(header: Header, body: seq<byte>)

  /** A Go `string`: an immutable byte sequence, not decoded on conversion. */
  type GoString = seq<byte>

  /** The metadata section a body would carry for `metadata`: none when it is
      empty, since only non-empty metadata is written. */
  function Announced(metadata: seq<byte>): Option<seq<byte>> {
    if |metadata| > 0 then Some(metadata) else None
  }

  /** Builds a request-response frame. The caller's flags are kept and
      `FlagMetadata` is added exactly when metadata is non-empty, in which
      case the body starts with its 24-bit length and the metadata; the data
      follows without a length. */
  function New(id: uint32, data: seq<byte>, metadata: seq<byte>, flags: seq<FrameFlag>): (f: Frame)
    ensures f.header.streamID == id && f.header.frameType == RequestResponse
    ensures forall fl :: fl in flags ==> fl in f.header.flags
    ensures forall fl :: fl in f.header.flags ==> fl in flags || fl == FlagMetadata
    ensures HasMetadata(f.header) <==> |metadata| > 0 || FlagMetadata in flags
    ensures f.body == Layout(Announced(metadata), data)
    ensures |f.body| == (if |metadata| > 0 then Width + |metadata| else 0) + |data|
  {
    var fg: Flags := set fl | fl in flags;
    var fg := if |metadata| > 0 then fg + {FlagMetadata} else fg;
    var body := if |metadata| > 0 then EncodeU24(|metadata|) + metadata else [];
    var body := if |data| > 0 then body + data else body;
    Frame(Header(id, RequestResponse, fg), body)
  }

  /** Structural validation of a decoded frame before it is trusted. A request-response
      frame carries no extra invariant, so it never reports an error. */
  function Validate(f: Frame): (err: Option<string>)
    ensures err.None?
  {
    None
  }

  /** The metadata of the frame (`trySliceMetadata(0)`): present exactly when
      the header carries `FlagMetadata`, and then the bytes after the body's
      leading 24-bit length. */
  function Metadata(f: Frame): (metadata: Option<seq<byte>>)
    requires Sliceable(f.header, f.body, 0)
    ensures metadata.Some? <==> HasMetadata(f.header)
    ensures metadata.Some? ==>
      && Width + |metadata.value| <= |f.body|
      && |metadata.value| == DecodeU24(f.body, 0)
      && f.body[..Width + |metadata.value|] == EncodeU24(|metadata.value|) + metadata.value
  {
    SliceMetadata(f.header, f.body, 0)
  }

  /** The data of the frame (`trySliceData(0)`): the body with the metadata
      section, if any, removed from its front. */
  function Data(f: Frame): (data: seq<byte>)
    requires Sliceable(f.header, f.body, 0)
    ensures f.body == Layout(Metadata(f), data)
  {
    SliceMetadataAndData(f.header, f.body, 0).data
  }

  /** The metadata as a string together with Go's `ok`: `ok` holds exactly
      when metadata is present, the string then holds the same bytes, and it
      is empty otherwise. */
  function MetadataUTF8(f: Frame): (r: (GoString, bool))
    requires Sliceable(f.header, f.body, 0)
    ensures r.1 <==> HasMetadata(f.header)
    ensures r.1 ==> Metadata(f) == Some(r.0)
    ensures !r.1 ==> r.0 == []
  {
    var m := Metadata(f);
    if m.Some? then (m.value, true) else ([], false)
  }

  /** The data as a string: the bytes after the metadata section. */
  function DataUTF8(f: Frame): (r: GoString)
    requires Sliceable(f.header, f.body, 0)
    ensures f.body == Layout(Metadata(f), r)
  {
    Data(f)
  }

  /** Construct/slice round trip: when `FlagMetadata` is not forced on with
      empty metadata and the metadata length fits in 24 bits, the frame's
      metadata is the given metadata (absent when it was empty) and its data
      is the given data. */
  lemma {:induction false} NewRoundTrip(id: uint32, data: seq<byte>, metadata: seq<byte>, flags: seq<FrameFlag>)
    requires |metadata| < Limit
    requires |metadata| == 0 ==> FlagMetadata !in flags
    ensures Sliceable(New(id, data, metadata, flags).header, New(id, data, metadata, flags).body, 0)
    ensures Metadata(New(id, data, metadata, flags)) == Announced(metadata)
    ensures Data(New(id, data, metadata, flags)) == data
    ensures MetadataUTF8(New(id, data, metadata, flags)) == (metadata, |metadata| > 0)
    ensures DataUTF8(New(id, data, metadata, flags)) == data
  {
    var f := New(id, data, metadata, flags);
    SliceLayout(f.header, [], Announced(metadata), data);
    assert [] + f.body == f.body;
  }

  /** Passing `FlagMetadata` explicitly with empty metadata sets the flag but
      writes no length, so the front of the data is read back as a metadata
      length: whenever that reading stays inside the body, metadata is
      reported present and the data comes back shorter by at least the three
      length bytes. */
  lemma {:induction false} ForcedFlagMisreadsData(id: uint32, data: seq<byte>, flags: seq<FrameFlag>)
    requires FlagMetadata in flags
    ensures HasMetadata(New(id, data, [], flags).header)
    ensures New(id, data, [], flags).body == data
    ensures Sliceable(New(id, data, [], flags).header, data, 0) ==>
      && Metadata(New(id, data, [], flags)) == Some(data[Width..Width + DecodeU24(data, 0)])
      && Data(New(id, data, [], flags)) == data[Width + DecodeU24(data, 0)..]
      && |Data(New(id, data, [], flags))| < |data|
  {
    var f := New(id, data, [], flags);
    if Sliceable(f.header, data, 0) {
      var s := SliceMetadataAndData(f.header, data, 0);
      assert data[0..] == data;
      assert |s.metadata.value| == DecodeU24(data, 0);
    }
  }
}
