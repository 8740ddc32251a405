# RSocket framing core in Dafny

A functional model of two pieces of the framing layer of an RSocket
implementation in Go:

- the **length-based frame decoder**: the 24-bit big-endian length codec,
  the split rule that cuts `[u24 length L][L bytes]` records off a buffered
  byte stream, the buffered scanner that applies it as reads arrive, and the
  dispatch loop that parses each record's header and hands it to a handler
  until something fails;
- the **frame body layout** and its representative constructor, the
  request-response frame: `[u24 len(metadata)][metadata][data]` when metadata
  is non-empty, plain `data` otherwise, with `FlagMetadata` announcing the
  metadata section.

Bytes are `seq<byte>` with `byte = 0..255`; everything is a pure function over
immutable values. Modules follow the program's structure:

| file | module | models |
|---|---|---|
| `wrappers.dfy` | `Wrappers` | `Option` / `Result` for Go's `nil` and `(value, err)` |
| `u24.dfy` | `U24` | `decodeU24`, `encodeU24` |
| `header.dfy` | `Header` | the frame header as an opaque `(streamID, type, flags)` value |
| `slicing.dfy` | `Slicing` | `sliceMetadata`, `sliceMetadataAndData`, the body layout |
| `request_response.dfy` | `RequestResponseFrame` | `NewFrameRequestResponse`, `Validate`, `Metadata`, `Data`, `MetadataUTF8`, `DataUTF8` |
| `decoder.dfy` | `Decoder` | the split closure; decoding of a complete byte sequence |
| `scanner.dfy` | `Scanning` | the buffered scanner's `Scan` over a sequence of reads |
| `handle.dfy` | `Dispatch` | the `Handle` loop: header parse, handler call, stop on first error |

Modelling choices:

- A Go index out of range panics. `decodeU24`, `sliceMetadataAndData`, and
  `sliceMetadata` when `FlagMetadata` is set, index without checks, so their
  in-bounds conditions (`Sliceable`) are preconditions and not error results.
  With the flag clear, `sliceMetadata` reads nothing and returns `nil` for any
  `raw` and offset, and the model asks nothing of them either. Go bounds the three length bytes and
  the data slice by the length of the body. The metadata slice in
  `sliceMetadata` is bounded by the body's capacity instead, which a
  sequence does not have; the model asks it to fit within the length (see
  Left out).
- Flags are the set of bits that are on. `newFlags(flags...)` is the set of
  the arguments, `fg |= FlagMetadata` is a union, and `Check` is membership.
  The bit positions and the 6-byte header packing are not modelled.
- The frame's `trySliceMetadata(0)` and `trySliceData(0)` are taken to be
  `sliceMetadata` and `sliceMetadataAndData` at offset 0. `WriteUint24` is
  taken to write `encodeU24` of its argument, which keeps the low 24 bits.
- A Go `string(bytes)` keeps the bytes unchanged, so `MetadataUTF8` and
  `DataUTF8` return byte sequences (`GoString`).
- The transport is a sequence of chunks, one per read. End of input is
  reported either by a read of its own after the last chunk or together with
  the last chunk (`eofWithLast`). The scanner calls the split rule on its
  buffer when the buffer is non-empty or input has ended. It reads again only
  when the rule asks for more. A split error or end of input ends scanning,
  and end of input is not an error.
- `asHeader` and the handler are parameters: `parse: seq<byte> -> Result<Header, E>`
  and `handler: (Header, seq<byte>) -> Option<E>`. The outcome records every
  handler call in order, together with the error returned. Errors raised by
  them come back unchanged (`Raised(e)`); the split error is `Framing(BadFrameLength(L))`.
- The split rule is a parameter of the scanner. `AsWritten` is the code, and
  `EOFAware` is the same rule without the early return at end of input (see
  Findings). The lemmas about the loop hold for the code whenever end of
  input arrives in a read of its own. They hold for the corrected rule under
  either way of reporting end of input.

Three details of the code worth knowing:

- The token the split rule emits still carries its 3-byte prefix. The loop
  strips the prefix when it reads the token, so the handler receives exactly
  the `L` bytes after the prefix.
- The split rule returns nothing at end of input even when a whole record is
  buffered, not only when the remainder is incomplete.
- Chunk invariance (`HandleChunkingInvariant`) therefore holds for the code
  only when end of input is reported in a read of its own (it requires
  `Faithful`).

## Model

| member | source | states |
|---|---|---|
| U24.DecodeU24 | utils.go:77-79 | three bytes at an in-bounds offset read back as a value in [0, 2^24) |
| U24.EncodeU24 | utils.go:81-85 | always exactly 3 bytes, which decode back to `n` modulo 2^24, so values below 2^24 round-trip and larger or negative ones keep only their low 24 bits |
| U24.EncodeDecode | utils.go:77-85 | re-encoding a decoded length gives back exactly the three bytes it was read from |
| U24.BigEndian | utils.go:77-85 | both directions put the most significant byte first: `0x010203` is written as `[1, 2, 3]` and read back from it |
| U24.EncodeInjective | utils.go:81-85 | on [0, 2^24) two encodings are equal exactly when the values are |
| Slicing.SliceMetadata | utils.go:104-114 | absent exactly when `FlagMetadata` is clear, for any body and offset; otherwise its length is the embedded 24-bit length and the region starts with that length followed by the metadata |
| Slicing.SliceMetadataAndData | utils.go:87-102 | the metadata agrees with `SliceMetadata`, and the region from the offset to the end is exactly the layout of the two sections: data is `raw[offset..]` without the flag, and everything after the metadata with it |
| Slicing.SliceLayout | utils.go:87-102 | slicing after any prefix recovers the metadata and data that were laid out, when the flag matches the presence of metadata and the length fits 24 bits |
| RequestResponseFrame.New | framing/frame_request_response.go:48-65 | the header carries the given stream id and type RequestResponse; every caller flag is kept, and `FlagMetadata` is the only bit added, exactly when metadata is non-empty; the body is `u24(len) ++ metadata ++ data` or just `data`, with length `(3+len(metadata) if non-empty) + len(data)` |
| RequestResponseFrame.Validate | framing/frame_request_response.go:13-16 | a request-response frame always validates |
| RequestResponseFrame.Metadata | framing/frame_request_response.go:23-26 | present exactly when the header has `FlagMetadata`; its length is then the body's leading 24-bit length, and the body starts with that length followed by the metadata |
| RequestResponseFrame.Data | framing/frame_request_response.go:28-31 | the body is the metadata section (if any) followed by the data |
| RequestResponseFrame.MetadataUTF8 | framing/frame_request_response.go:33-40 | `ok` holds exactly when metadata is present, the string is then the same bytes, and it is empty otherwise |
| RequestResponseFrame.DataUTF8 | framing/frame_request_response.go:42-45 | the string holds the bytes after the metadata section |
| RequestResponseFrame.NewRoundTrip | framing/frame_request_response.go:48-65 | for metadata shorter than 2^24 and no forced `FlagMetadata` on empty metadata, the built frame's metadata is the given metadata (absent when empty) and its data is the given data; so are the string forms |
| RequestResponseFrame.ForcedFlagMisreadsData | framing/frame_request_response.go:49-55 | with `FlagMetadata` passed explicitly and empty metadata, the flag is set but the body is just the data, so the front of the data is read as a metadata length and `Data()` comes back shorter than the data |
| Decoder.Split | utils.go:25-42 | nothing at end of input or with fewer than 3 bytes; an error and no token exactly when the length is below 1; a token exactly when `3+L` bytes are buffered, which is then the first `3+L` bytes with advance `3+L`, so the record after the prefix has length `L`; otherwise advance 0 and no token |
| Decoder.SplitEnframed | utils.go:32-39 | a record of length 1..2^24-1 with its length prefix, in front of any bytes, is cut off exactly |
| Decoder.SplitStable | utils.go:25-42 | once a token or an error is produced, more bytes arriving behind the buffer do not change it |
| Decoder.Records | utils.go:25-51 | repeated splitting of a finite stream yields non-empty records whose re-enframed concatenation is a prefix of the stream; it stops where no token is produced, with that split's error |
| Decoder.RecordsOfFrames | utils.go:25-51 | concatenated records, each of length ≥ 1, are split back exactly and in order; an incomplete tail is dropped without error and a zero length prefix reports `BadFrameLength(0)` |
| Scanning.Apply | utils.go:25-42 | either rule cuts tokens that are prefixes longer than 3 bytes; the rule as written gives nothing at end of input |
| Scanning.Scan | utils.go:43-45 | a scan returns a token of more than 3 bytes, and the token followed by what remains unread is exactly what was unread before; under the rule as written no token follows end of input |
| Scanning.Read | utils.go:43-45 | a read appends exactly the next chunk to the buffer and leaves the later chunks pending, so no byte is lost; end of input is seen exactly when no chunk is left, or when the last chunk is read from a reader that reports end of input with it |
| Scanning.ScanSplits | utils.go:25-45 | however the unread bytes are split between buffer and pending reads, one scan gives the split rule's error or token on all of them at once |
| Dispatch.Handle | utils.go:45-60 | every call carries the header its record parses to; every call except possibly the last was accepted, and the last failed only when the loop returns that handler's error |
| Dispatch.DispatchAllStops | utils.go:45-60 | calls follow the records in order; the loop stops at the first record whose header fails to parse (no call for it) or whose handler fails (that call is the last), returning the error unchanged; otherwise every record gets one call and the stream's error is returned |
| Dispatch.HandleDecodes | utils.go:24-68 | the loop equals the reference dispatch of the records its unread bytes decode to |
| Dispatch.HandleChunkingInvariant | utils.go:24-60 | two chunkings of the same bytes give the same calls and the same result |
| Dispatch.HandleFrames | utils.go:24-68 | a stream of enframed records, however chunked, is dispatched record by record in order; an incomplete trailing record is dropped silently; a trailing zero length ends the loop with `BadFrameLength(0)` |
| Dispatch.HandleZeroLength | utils.go:32-36 | a stream whose first length prefix is zero ends the loop with `BadFrameLength(0)` and no handler call |
| Dispatch.FinalReadDropped | utils.go:26-28 | under the rule as written, a whole record delivered in the same read as end of input is never handled and no error is returned, although it decodes to that record |
| Dispatch.FinalReadKept | utils.go:25-42 | under the corrected rule, enframed records are dispatched in order however end of input is reported |

## Findings

| source | as written | input that shows it | evidently intended | confidence | as-written member | corrected member |
|---|---|---|---|---|---|---|
| utils.go:26-28 | the split rule returns nothing whenever `atEOF` is set, even when whole records are buffered | a reader whose one read returns `[0x00, 0x00, 0x01, 0x07]` together with end of input: `bufio.Scanner` calls the split rule with `atEOF` set and the record is dropped without an error | at end of input, cut the complete records that are buffered and drop only an incomplete tail | medium, not executed; it rests on `bufio.Scanner` calling split with `atEOF` for bytes read together with end of input, while TCP connections usually report end of input in a read of its own | Dispatch.FinalReadDropped | Dispatch.FinalReadKept |

## Left out

- Cancellation through `ctx.Done()` between records (utils.go:46-48) is concurrency plumbing and is not modelled.
- Transport read errors are not modelled, and neither is the match on a "use of closed network connection" `net.OpError` that turns one into a clean return, or the logging (utils.go:61-67). The modelled input always ends with end of input.
- Scanner buffer sizing is not modelled: the 64 KiB initial buffer, the 16 MiB + 3 maximum with its "token too long" error (utils.go:16-17, 43-44), and the library's error after 100 consecutive empty reads. These belong to the Go library and are not modelled. Records are limited only by the 24-bit length.
- `newLengthBasedFrameDecoder` (utils.go:71-75) only wraps a reader in a scanner and is not modelled. The constant `headerLen` (utils.go:15) is unused by the modelled code.
- Header packing is not modelled: `asHeader`, `NewFrameHeader`, the numeric type codes and the flag bit positions are defined outside the modelled files. The header is an opaque value, and header parsing is a parameter of the loop.
- `common.BorrowByteBuffer` and the buffer pool (framing/frame_request_response.go:50) are a shared concurrent resource; the body is a plain sequence.
- The `make`/`copy` calls in the slicing functions protect against aliasing. In a model of immutable values every slice is already independent, so they need no counterpart.
- `String()` rendering (framing/frame_request_response.go:18-21) is formatting only and is not modelled.
- The handler is a pure function of its arguments. A stateful handler gives the same order and stop-on-error behaviour, but its state is not modelled.
- RequestResponseFrame.New: metadata of 2^24 bytes or more gets a truncated length prefix, because `WriteUint24` is taken to keep the low 24 bits. `WriteUint24` is defined outside the modelled files, so the round trip is stated only below 2^24.
- Slicing.SliceMetadata: requires the metadata to end within the length of `raw`. Go's `raw[offset : offset+l]` (utils.go:110) is bounded by the capacity, so on a body whose embedded length runs past its length but not past its capacity Go returns stale bytes from beyond the body instead of panicking. A sequence has no capacity, so that read is not modelled.
- RequestResponseFrame.Metadata: inherits the same precondition from `Slicing.SliceMetadata`, so a metadata length that runs past the body but stays within the pooled buffer's capacity is not modelled.
- RequestResponseFrame.MetadataUTF8: calls `Metadata` (framing/frame_request_response.go:35) and inherits the same precondition, so the capacity-bounded metadata read is not modelled here either.
- The record handed to the handler is `p.scanner.Bytes()[3:]` (utils.go:51-56), a view into the scanner's buffer that the next scan may overwrite. The model hands over an immutable sequence, so a handler that keeps the record past its own return is not modelled.
